/** The socket a `ClientImpl` shares between threads: `send` with nested sends, `stop` and
    `close_socket`, with the TLS pointer an `SSLClient` keeps beside it. Each section under
    `socket_mutex_` is one step, and so is the start of `process_socket`, which reads the socket without
    that mutex; `request_mutex_` is recursive and admits one thread. A run is any interleaving of the
    steps of any number of threads; whether a socket is alive, a connection or its TLS handshake succeeds
    and a request succeeds are free choices. */
module ClientSocket {
  import opened Text

  type Thread = nat
  type Sock = nat

  /** A `send` on the owner's call stack: waiting for its socket section, past it, or processing the
      socket. */
  datatype Frame = Entering | Marked(sock: Sock) | InUse(sock: Sock)

  /** A call of `::close`: which socket, by whom, and which thread then had requests in flight. */
  datatype Close = Close(sock: Sock, closer: Thread, user: Option<Thread>)

  /** `tls` tells an `SSLClient` from a plain client; `ssl` is whether `socket_.ssl` is set. */
  datatype Client = Client(
    tls: bool, sock: Option<Sock>, ssl: bool, inFlight: int, fromThread: Option<Thread>, shouldClose: bool,
    owner: Option<Thread>, frames: seq<Frame>, opens: nat, closes: seq<Close>, shut: set<Sock>)

  function Fresh(tls: bool): Client { Client(tls, None, false, 0, None, false, None, [], 0, [], {}) }

  datatype Step =
    | Enter(t: Thread)
    | Setup(t: Thread, alive: bool, connects: bool, secured: bool)
    | Process(t: Thread)
    | ConnectionClose(t: Thread)
    | Finish(t: Thread, ret: bool, closeConnection: bool)
    | Stop(t: Thread)

  // ---- The sections -----------------------------------------------------------------------------

  /** The assert on the threads in `close_socket` and in the plain client's `shutdown_ssl`. */
  predicate MayClose(c: Client, t: Thread) { c.inFlight == 0 || c.fromThread == Some(t) }

  /** `shutdown_ssl`; a plain client's only asserts. */
  function ShutdownSsl(c: Client): Client { if c.tls && c.sock.Some? then c.(ssl := false) else c }

  function CloseSocket(c: Client, t: Thread): Client {
    if c.sock == None then c
    else c.(sock := None, closes := c.closes + [Close(c.sock.value, t, c.fromThread)])
  }

  function ShutdownSocket(c: Client): Client {
    c.(shut := if c.sock.Some? then c.shut + {c.sock.value} else c.shut)
  }

  /** `shutdown_ssl`, `shutdown_socket` and `close_socket` in a row. */
  function CloseAll(c: Client, t: Thread): Client { CloseSocket(ShutdownSocket(ShutdownSsl(c)), t) }

  function Top(frames: seq<Frame>): Option<Frame> {
    if frames == [] then None else Some(frames[|frames| - 1])
  }

  function Pop(c: Client): Client
    requires c.frames != []
  {
    var frames := c.frames[..|c.frames| - 1];
    c.(frames := frames, owner := if frames == [] then None else c.owner)
  }

  function DropDead(c: Client, t: Thread, alive: bool): Client {
    if c.sock.Some? && !alive then CloseAll(c, t) else c
  }

  function Opened(c: Client): Client { c.(sock := Some(c.opens), opens := c.opens + 1) }

  /** A new socket, with its TLS pointer; one whose TLS setup fails is closed again at once. */
  function Connect(c: Client, t: Thread, connects: bool, secured: bool): Client {
    if c.sock.Some? || !connects then c
    else if !c.tls then Opened(c)
    else if secured then Opened(c).(ssl := true)
    else CloseSocket(ShutdownSocket(Opened(c)), t)
  }

  function MarkInUse(c: Client, t: Thread): Client
    requires c.frames != [] && c.sock.Some?
  {
    c.(inFlight := c.inFlight + 1, fromThread := Some(t),
       frames := c.frames[|c.frames| - 1 := Marked(c.sock.value)])
  }

  /** The section at the start of `send`. */
  function SetupSection(c: Client, t: Thread, alive: bool, connects: bool, secured: bool): Client
    requires c.frames != []
  {
    var c2 := Connect(DropDead(c.(shouldClose := false), t, alive), t, connects, secured);
    if c2.sock == None then Pop(c2) else MarkInUse(c2, t)
  }

  function Release(c: Client): Client {
    c.(inFlight := c.inFlight - 1, fromThread := if c.inFlight - 1 <= 0 then None else c.fromThread)
  }

  /** The section at the end of `send`. */
  function FinishSection(c: Client, t: Thread, ret: bool, closeConnection: bool): Client
    requires c.frames != []
  {
    var c1 := Release(c);
    Pop(if c1.shouldClose || closeConnection || !ret then CloseAll(c1, t) else c1)
  }

  function StopSection(c: Client, t: Thread): Client {
    if c.inFlight > 0 then ShutdownSocket(c).(shouldClose := true) else CloseAll(c, t)
  }

  predicate IsOnTop(c: Client, t: Thread) { c.owner == Some(t) && c.frames != [] }

  predicate Enabled(c: Client, step: Step) {
    match step
    case Enter(t) => (c.owner == None || c.owner == Some(t)) && (c.frames == [] || Top(c.frames).value.InUse?)
    case Setup(t, _, _, _) => IsOnTop(c, t) && Top(c.frames).value == Entering
    case Process(t) => IsOnTop(c, t) && Top(c.frames).value.Marked?
    case ConnectionClose(t) => IsOnTop(c, t) && Top(c.frames).value.InUse?
    case Finish(t, _, _) => IsOnTop(c, t) && Top(c.frames).value.InUse?
    case Stop(_) => true
  }

  function Apply(c: Client, step: Step): Client
    requires Enabled(c, step)
  {
    match step
    case Enter(t) => c.(owner := Some(t), frames := c.frames + [Entering])
    case Setup(t, alive, connects, secured) => SetupSection(c, t, alive, connects, secured)
    case Process(_) => c.(frames := c.frames[|c.frames| - 1 := InUse(Top(c.frames).value.sock)])
    case ConnectionClose(t) => CloseAll(c, t)
    case Finish(t, ret, closeConnection) => FinishSection(c, t, ret, closeConnection)
    case Stop(t) => StopSection(c, t)
  }

  // ---- The asserts ------------------------------------------------------------------------------

  /** A plain client asserts on the threads. A TLS client asserts that there is no TLS pointer when there
      is no socket, and otherwise that there is none afterwards. */
  predicate ShutdownSslAsserts(c: Client, t: Thread) {
    if !c.tls then MayClose(c, t)
    else if c.sock == None then !c.ssl
    else !ShutdownSsl(c).ssl
  }

  predicate CloseSocketAsserts(c: Client, t: Thread) { MayClose(c, t) && !c.ssl }

  predicate CloseAllAsserts(c: Client, t: Thread) {
    ShutdownSslAsserts(c, t) && CloseSocketAsserts(ShutdownSsl(c), t)
  }

  predicate SetupAsserts(c: Client, t: Thread, alive: bool, connects: bool, secured: bool) {
    (c.sock.Some? && !alive ==> CloseAllAsserts(c, t)) &&
    (var c1 := DropDead(c, t, alive);
     c1.sock == None && connects && c.tls && !secured ==> CloseSocketAsserts(Opened(c1), t)) &&
    (c.inFlight > 1 ==> c.fromThread == Some(t))
  }

  /** Every assert of the source that the step meets: on the threads, on the counter, and on the TLS
      pointer, which `process_socket` needs and closing must not find. */
  predicate AssertsHold(c: Client, step: Step)
    requires Enabled(c, step)
  {
    match step
    case Enter(_) => true
    case Setup(t, alive, connects, secured) => SetupAsserts(c, t, alive, connects, secured)
    case Process(_) => c.tls ==> c.ssl
    case ConnectionClose(t) => CloseAllAsserts(c, t)
    case Finish(t, _, _) => (c.inFlight - 1 <= 0 ==> c.inFlight - 1 == 0) && CloseAllAsserts(Release(c), t)
    case Stop(t) => c.inFlight > 0 || CloseAllAsserts(c, t)
  }

  // ---- The invariant ----------------------------------------------------------------------------

  function Depth(frames: seq<Frame>): nat {
    if frames == [] then 0
    else Depth(frames[..|frames| - 1]) + (if frames[|frames| - 1] == Entering then 0 else 1)
  }

  /** The counter is the nesting depth of the owner's sends past their setup, and while it is positive the
      recorded thread is the owner. */
  predicate Counted(c: Client) {
    && c.inFlight == Depth(c.frames)
    && c.fromThread == (if c.inFlight > 0 then c.owner else None)
    && (c.owner == None <==> c.frames == [])
    && (forall i :: 0 <= i < |c.frames| - 1 ==> c.frames[i].InUse?)
  }

  /** A TLS client has a TLS pointer exactly while it has a socket, a plain one never; and a `send` between
      its setup and the processing of the socket still has the socket it set up. */
  predicate Sealed(c: Client) {
    && c.ssl == (c.tls && c.sock.Some?)
    && (c.frames != [] && Top(c.frames).value.Marked? ==> c.sock == Some(Top(c.frames).value.sock))
  }

  /** Socket numbers are used once and no socket is closed twice, nor while another thread uses it. */
  predicate ClosedOnce(c: Client) {
    && (c.sock.Some? ==> c.sock.value < c.opens)
    && (forall i :: 0 <= i < |c.closes| ==>
          && c.closes[i].sock < c.opens
          && c.sock != Some(c.closes[i].sock)
          && (c.closes[i].user == None || c.closes[i].user == Some(c.closes[i].closer)))
    && (forall i, j :: 0 <= i < j < |c.closes| ==> c.closes[i].sock != c.closes[j].sock)
  }

  predicate Inv(c: Client) { Counted(c) && Sealed(c) && ClosedOnce(c) }

  lemma CloseKeeps(c: Client, t: Thread)
    requires ClosedOnce(c) && (c.fromThread == None || c.fromThread == Some(t))
    ensures ClosedOnce(CloseSocket(c, t)) && ClosedOnce(CloseAll(c, t))
  {
  }

  lemma CloseTouchesSocketOnly(c: Client, t: Thread)
    ensures forall c' :: c' == CloseSocket(c, t) || c' == CloseAll(c, t) ==>
              c'.inFlight == c.inFlight && c'.fromThread == c.fromThread && c'.owner == c.owner &&
              c'.frames == c.frames && c'.sock == None && c'.tls == c.tls && c'.opens == c.opens &&
              c'.shouldClose == c.shouldClose
    ensures CloseSocket(c, t).ssl == c.ssl
    ensures c.ssl ==> c.tls && c.sock.Some? ==> !CloseAll(c, t).ssl
  {
  }

  /** Closing meets its asserts when the threads are right and the TLS pointer goes with the socket. */
  lemma CloseAllIsSafe(c: Client, t: Thread)
    requires c.ssl ==> c.tls && c.sock.Some?
    requires MayClose(c, t)
    ensures CloseAllAsserts(c, t) && !CloseAll(c, t).ssl
  {
  }

  lemma ShutdownKeeps(c: Client)
    requires ClosedOnce(c)
    ensures ClosedOnce(ShutdownSocket(c))
  {
  }

  lemma OpenKeeps(c: Client)
    requires ClosedOnce(c) && c.sock == None
    ensures ClosedOnce(Opened(c)) && ClosedOnce(Opened(c).(ssl := true))
  {
  }

  lemma {:induction false} DepthSnoc(frames: seq<Frame>, frame: Frame)
    ensures Depth(frames + [frame]) == Depth(frames) + (if frame == Entering then 0 else 1)
  {
    assert (frames + [frame])[..|frames|] == frames;
  }

  lemma {:induction false} DepthFull(frames: seq<Frame>)
    requires forall i :: 0 <= i < |frames| ==> frames[i].InUse?
    ensures Depth(frames) == |frames|
  {
    if frames != [] { DepthFull(frames[..|frames| - 1]); }
  }

  /** Dropping a dead socket and connecting a new one touch no counter, meet their asserts, and keep the
      TLS pointer with the socket. */
  lemma RenewKeeps(c: Client, t: Thread, alive: bool, connects: bool, secured: bool)
    requires ClosedOnce(c) && (c.fromThread == None || c.fromThread == Some(t)) && MayClose(c, t)
    requires c.ssl == (c.tls && c.sock.Some?)
    ensures var c' := Connect(DropDead(c, t, alive), t, connects, secured);
            && ClosedOnce(c') && c'.inFlight == c.inFlight && c'.fromThread == c.fromThread
            && c'.owner == c.owner && c'.frames == c.frames && c'.ssl == (c'.tls && c'.sock.Some?)
    ensures c.sock.Some? && !alive ==> CloseAllAsserts(c, t)
    ensures var c1 := DropDead(c, t, alive);
            c1.sock == None && connects && c.tls && !secured ==> CloseSocketAsserts(Opened(c1), t)
  {
    hide ClosedOnce, CloseSocket, CloseAll, CloseAllAsserts;
    CloseKeeps(c, t);
    CloseTouchesSocketOnly(c, t);
    CloseAllIsSafe(c, t);
    var c1 := DropDead(c, t, alive);
    if c1.sock == None && connects {
      OpenKeeps(c1);
      ShutdownKeeps(Opened(c1));
      CloseKeeps(ShutdownSocket(Opened(c1)), t);
      CloseTouchesSocketOnly(ShutdownSocket(Opened(c1)), t);
    }
  }

  lemma {:induction false} MarkCounts(c: Client, t: Thread)
    requires Counted(c) && IsOnTop(c, t) && Top(c.frames).value == Entering && c.sock.Some?
    requires c.ssl == (c.tls && c.sock.Some?)
    ensures Counted(MarkInUse(c, t)) && Sealed(MarkInUse(c, t))
  {
    var n := |c.frames| - 1;
    var below := c.frames[..n];
    var frame := Marked(c.sock.value);
    assert c.frames[n := frame] == below + [frame];
    DepthSnoc(below, frame);
    DepthSnoc(below, Entering);
    assert c.frames == below + [Entering];
  }

  lemma {:induction false} PopCounts(c: Client, t: Thread)
    requires Counted(c) && IsOnTop(c, t) && Top(c.frames).value == Entering
    ensures Counted(Pop(c)) && (Pop(c).frames != [] ==> Top(Pop(c).frames).value.InUse?)
  {
    var below := c.frames[..|c.frames| - 1];
    assert Depth(c.frames) == Depth(below);
    DepthFull(below);
  }

  lemma {:induction false} SetupInv(c: Client, t: Thread, alive: bool, connects: bool, secured: bool)
    requires Inv(c) && Enabled(c, Setup(t, alive, connects, secured))
    ensures Inv(SetupSection(c, t, alive, connects, secured)) && SetupAsserts(c, t, alive, connects, secured)
  {
    hide ClosedOnce, CloseAllAsserts, Depth;
    var c1 := c.(shouldClose := false);
    SameButFlag(c, t, alive);
    RenewKeeps(c, t, alive, connects, secured);
    RenewKeeps(c1, t, alive, connects, secured);
    hide Connect, DropDead, CloseSocketAsserts, Pop, MarkInUse;
    var c2 := Connect(DropDead(c1, t, alive), t, connects, secured);
    Renewed(c2, t);
  }

  /** After the socket is renewed the send is marked, or given up without a socket. */
  lemma {:induction false} Renewed(c: Client, t: Thread)
    requires Counted(c) && ClosedOnce(c) && c.ssl == (c.tls && c.sock.Some?)
    requires IsOnTop(c, t) && Top(c.frames).value == Entering
    ensures Inv(if c.sock == None then Pop(c) else MarkInUse(c, t))
  {
    hide ClosedOnce, Counted;
    if c.sock.Some? {
      MarkCounts(c, t);
      MarkKeepsCloses(c, t);
    } else {
      PopCounts(c, t);
      PopKeepsCloses(c);
    }
  }

  lemma SameButFlag(c: Client, t: Thread, alive: bool)
    ensures ClosedOnce(c) ==> ClosedOnce(c.(shouldClose := false))
    ensures DropDead(c.(shouldClose := false), t, alive) == DropDead(c, t, alive).(shouldClose := false)
  {
  }

  lemma MarkKeepsCloses(c: Client, t: Thread)
    requires ClosedOnce(c) && c.frames != [] && c.sock.Some?
    ensures ClosedOnce(MarkInUse(c, t))
  {
  }

  lemma PopKeepsCloses(c: Client)
    requires ClosedOnce(c) && c.frames != []
    ensures ClosedOnce(Pop(c))
  {
  }

  lemma {:induction false} ProcessInv(c: Client, t: Thread)
    requires Inv(c) && Enabled(c, Process(t))
    ensures Inv(Apply(c, Process(t))) && AssertsHold(c, Process(t))
  {
    hide ClosedOnce, Depth;
    var n := |c.frames| - 1;
    var below, sock := c.frames[..n], Top(c.frames).value.sock;
    DepthSnoc(below, InUse(sock));
    DepthSnoc(below, Marked(sock));
    assert c.frames == below + [Marked(sock)];
    assert c.frames[n := InUse(sock)] == below + [InUse(sock)];
    SameCloses(c, c.frames[n := InUse(sock)]);
  }

  lemma SameCloses(c: Client, frames: seq<Frame>)
    ensures ClosedOnce(c) ==> ClosedOnce(c.(frames := frames))
  {
  }

  lemma {:induction false} FinishInv(c: Client, t: Thread, ret: bool, closeConnection: bool)
    requires Inv(c) && Enabled(c, Finish(t, ret, closeConnection))
    ensures Inv(FinishSection(c, t, ret, closeConnection)) && AssertsHold(c, Finish(t, ret, closeConnection))
  {
    hide CloseSocket, CloseAll, CloseAllAsserts, ClosedOnce;
    var below := c.frames[..|c.frames| - 1];
    DepthFull(below);
    assert Depth(c.frames) == Depth(below) + 1;
    var c1 := Release(c);
    ReleaseKeepsCloses(c);
    CloseKeeps(c1, t);
    CloseTouchesSocketOnly(c1, t);
    CloseAllIsSafe(c1, t);
    var c2 := if c1.shouldClose || closeConnection || !ret then CloseAll(c1, t) else c1;
    PopKeepsCloses(c2);
  }

  lemma ReleaseKeepsCloses(c: Client)
    requires ClosedOnce(c)
    ensures ClosedOnce(Release(c))
  {
  }

  lemma CloseInv(c: Client, t: Thread)
    requires Inv(c) && MayClose(c, t) && (c.frames != [] ==> !Top(c.frames).value.Marked?)
    requires c.fromThread == None || c.fromThread == Some(t)
    ensures Inv(CloseAll(c, t)) && CloseAllAsserts(c, t)
  {
    hide CloseSocket, CloseAll, CloseAllAsserts, ClosedOnce, Depth;
    CloseKeeps(c, t);
    CloseTouchesSocketOnly(c, t);
    CloseAllIsSafe(c, t);
  }

  lemma {:induction false} StopInv(c: Client, t: Thread)
    requires Inv(c)
    ensures Inv(StopSection(c, t)) && AssertsHold(c, Stop(t))
  {
    hide ClosedOnce, CloseAll, CloseAllAsserts;
    if c.inFlight <= 0 {
      if c.frames != [] { assert Depth(c.frames) == 0; }
      CloseInv(c, t);
    } else {
      StopFlagKeepsCloses(c);
    }
  }

  lemma StopFlagKeepsCloses(c: Client)
    requires ClosedOnce(c)
    ensures forall shut :: ClosedOnce(c.(shouldClose := true, shut := shut))
  {
  }

  lemma {:induction false} EnterInv(c: Client, t: Thread)
    requires Inv(c) && Enabled(c, Enter(t))
    ensures Inv(Apply(c, Enter(t)))
  {
    DepthSnoc(c.frames, Entering);
  }

  /** Every step keeps the invariant and meets every assert of the source. */
  lemma StepInv(c: Client, step: Step)
    requires Inv(c) && Enabled(c, step)
    ensures Inv(Apply(c, step)) && AssertsHold(c, step)
  {
    hide Inv, ClosedOnce, SetupAsserts, CloseAllAsserts;
    match step
    case Enter(t) => EnterInv(c, t);
    case Setup(t, alive, connects, secured) => SetupInv(c, t, alive, connects, secured);
    case Process(t) => ProcessInv(c, t);
    case ConnectionClose(t) => ConnectionCloseInv(c, t);
    case Finish(t, ret, closeConnection) => FinishInv(c, t, ret, closeConnection);
    case Stop(t) => StopInv(c, t);
  }

  lemma ConnectionCloseInv(c: Client, t: Thread)
    requires Inv(c) && Enabled(c, ConnectionClose(t))
    ensures Inv(CloseAll(c, t)) && CloseAllAsserts(c, t)
  {
    hide ClosedOnce, CloseAll, CloseAllAsserts;
    CloseInv(c, t);
  }

  // ---- Runs -------------------------------------------------------------------------------------

  predicate CanRun(c: Client, steps: seq<Step>)
    decreases |steps|
  {
    steps == [] || (Enabled(c, steps[0]) && CanRun(Apply(c, steps[0]), steps[1..]))
  }

  function After(c: Client, steps: seq<Step>): Client
    requires CanRun(c, steps)
    decreases |steps|
  {
    if steps == [] then c else After(Apply(c, steps[0]), steps[1..])
  }

  /** All asserts hold along the run. */
  predicate AllAsserts(c: Client, steps: seq<Step>)
    requires CanRun(c, steps)
    decreases |steps|
  {
    steps == [] || (AssertsHold(c, steps[0]) && AllAsserts(Apply(c, steps[0]), steps[1..]))
  }

  lemma SameKind(c: Client, step: Step)
    requires Enabled(c, step)
    ensures Apply(c, step).tls == c.tls
  {
    hide CloseAll, Connect, DropDead;
    match step
    case Setup(t, alive, connects, secured) => RenewTouches(c.(shouldClose := false), t, alive, connects, secured);
    case Finish(t, _, _) => CloseTouchesSocketOnly(Release(c), t);
    case ConnectionClose(t) => CloseTouchesSocketOnly(c, t);
    case Stop(t) => CloseTouchesSocketOnly(c, t);
    case Enter(_) =>
    case Process(_) =>
  }

  lemma RenewTouches(c: Client, t: Thread, alive: bool, connects: bool, secured: bool)
    ensures var c' := Connect(DropDead(c, t, alive), t, connects, secured);
            c'.tls == c.tls && c'.shouldClose == c.shouldClose && c'.frames == c.frames && c'.inFlight == c.inFlight
  {
  }

  lemma {:induction false} RunInv(c: Client, steps: seq<Step>)
    requires Inv(c) && CanRun(c, steps)
    ensures Inv(After(c, steps)) && AllAsserts(c, steps) && After(c, steps).tls == c.tls
    decreases |steps|
  {
    hide Inv, AssertsHold, Apply, Enabled;
    if steps != [] {
      StepInv(c, steps[0]);
      SameKind(c, steps[0]);
      RunInv(Apply(c, steps[0]), steps[1..]);
    }
  }

  /** Over every run from a new client, plain or TLS: no assert fails, the in-flight count is the owner's
      nesting depth, a TLS pointer is there exactly with a TLS client's socket, no socket is closed twice,
      and one in use is closed by the thread using it. */
  lemma {:induction false} Safety(tls: bool, steps: seq<Step>)
    requires CanRun(Fresh(tls), steps)
    ensures AllAsserts(Fresh(tls), steps)
    ensures var c := After(Fresh(tls), steps);
            && c.inFlight == Depth(c.frames)
            && (c.inFlight > 0 ==> c.owner.Some? && c.fromThread == c.owner)
            && c.ssl == (tls && c.sock.Some?)
            && (forall i, j :: 0 <= i < j < |c.closes| ==> c.closes[i].sock != c.closes[j].sock)
            && (forall i :: 0 <= i < |c.closes| ==>
                  c.closes[i].user == None || c.closes[i].user == Some(c.closes[i].closer))
  {
    RunInv(Fresh(tls), steps);
  }

  // ---- What stop achieves -------------------------------------------------------------------------

  /** The deferred-close flag as the history tells it: a `stop` met requests in flight, and no send has
      passed its setup since. */
  predicate StopPending(c: Client, steps: seq<Step>, pending: bool)
    requires CanRun(c, steps)
    decreases |steps|
  {
    if steps == [] then pending
    else
      var pending' := if steps[0].Setup? then false
                      else pending || (steps[0].Stop? && c.inFlight > 0);
      StopPending(Apply(c, steps[0]), steps[1..], pending')
  }

  lemma FlagAfter(c: Client, step: Step)
    requires Enabled(c, step)
    ensures Apply(c, step).shouldClose ==
            (!step.Setup? && (c.shouldClose || (step.Stop? && c.inFlight > 0)))
  {
    hide CloseAll, Connect, DropDead;
    match step
    case Setup(t, alive, connects, secured) => RenewTouches(c.(shouldClose := false), t, alive, connects, secured);
    case Finish(t, _, _) => CloseTouchesSocketOnly(Release(c), t);
    case ConnectionClose(t) => CloseTouchesSocketOnly(c, t);
    case Stop(t) => CloseTouchesSocketOnly(c, t);
    case Enter(_) =>
    case Process(_) =>
  }

  lemma {:induction false} FlagIsStopPending(c: Client, steps: seq<Step>)
    requires CanRun(c, steps)
    ensures After(c, steps).shouldClose == StopPending(c, steps, c.shouldClose)
    decreases |steps|
  {
    hide Apply, Enabled;
    if steps != [] {
      FlagAfter(c, steps[0]);
      FlagIsStopPending(Apply(c, steps[0]), steps[1..]);
    }
  }

  /** Without another setup, a pending flag stays, a closed socket stays closed, and the first request to
      end closes the socket. */
  lemma {:induction false} PendingStopCloses(c: Client, steps: seq<Step>)
    requires CanRun(c, steps) && c.shouldClose && forall k :: 0 <= k < |steps| ==> !steps[k].Setup?
    ensures var c' := After(c, steps);
            && c'.shouldClose
            && (c.sock == None ==> c'.sock == None)
            && ((exists k :: 0 <= k < |steps| && steps[k].Finish?) ==> c'.sock == None)
    decreases |steps|
  {
    if steps != [] {
      PendingStopCloses(Apply(c, steps[0]), steps[1..]);
      if k :| 0 <= k < |steps| && steps[k].Finish? {
        if k > 0 { assert steps[1..][k - 1].Finish?; }
      }
    }
  }

  /** A `stop` that lands in a request with no later nested send leaves the socket closed when that
      request ends. */
  lemma {:induction false} StopLeavesClosed(
    tls: bool, before: seq<Step>, t: Thread, later: seq<Step>, last: Step)
    requires CanRun(Fresh(tls), before) && After(Fresh(tls), before).inFlight > 0
    requires CanRun(StopSection(After(Fresh(tls), before), t), later + [last])
    requires last.Finish? && forall k :: 0 <= k < |later| ==> !later[k].Setup?
    ensures After(StopSection(After(Fresh(tls), before), t), later + [last]).sock == None
  {
    var steps := later + [last];
    assert steps[|later|] == last;
    PendingStopCloses(StopSection(After(Fresh(tls), before), t), steps);
  }

  lemma {:induction false} RunSnoc(c: Client, steps: seq<Step>, last: Step)
    requires CanRun(c, steps + [last])
    ensures CanRun(c, steps) && Enabled(After(c, steps), last)
    ensures After(c, steps + [last]) == Apply(After(c, steps), last)
    decreases |steps|
  {
    hide Enabled, Apply;
    var all := steps + [last];
    if steps == [] {
      assert all[1..] == [];
    } else {
      assert all[0] == steps[0] && all[1..] == steps[1..] + [last];
      RunSnoc(Apply(c, steps[0]), steps[1..], last);
    }
  }

  /** When a request ends, the socket is closed exactly when it was closed before, a `stop` is pending, the
      connection is not kept alive, or the request failed. */
  lemma {:induction false} FinishCloses(c: Client, later: seq<Step>, t: Thread, ret: bool, closeConnection: bool)
    requires CanRun(c, later + [Finish(t, ret, closeConnection)])
    ensures CanRun(c, later)
    ensures After(c, later + [Finish(t, ret, closeConnection)]).sock == None <==>
            After(c, later).sock == None || StopPending(c, later, c.shouldClose) || closeConnection || !ret
  {
    RunSnoc(c, later, Finish(t, ret, closeConnection));
    FlagIsStopPending(c, later);
  }

  lemma {:induction false} RunCons(c: Client, step: Step, rest: seq<Step>)
    requires Enabled(c, step) && CanRun(Apply(c, step), rest)
    ensures CanRun(c, [step] + rest) && After(c, [step] + rest) == After(Apply(c, step), rest)
  {
    assert ([step] + rest)[1..] == rest;
  }

  function NestedSend(t: Thread, alive: bool): seq<Step> {
    [Enter(t), Setup(t, alive, true, true), Process(t), Finish(t, true, false)]
  }

  function Entered(c: Client): Client { c.(frames := c.frames + [Entering]) }

  /** The client once the nested send has renewed its socket. */
  function Refreshed(c: Client, t: Thread, alive: bool): Client {
    Connect(DropDead(c.(shouldClose := false), t, alive), t, true, true)
  }

  function Nested(c: Client, frame: Frame): Client {
    c.(frames := c.frames + [frame], inFlight := c.inFlight + 1)
  }

  /** A nested send is set up under the thread that has the requests in flight. */
  predicate Busy(c: Client, t: Thread) {
    c.owner == Some(t) && c.fromThread == Some(t) && c.inFlight > 0 && c.frames != [] &&
    Top(c.frames).value.InUse? && c.sock.Some? && !c.shouldClose
  }

  lemma RefreshedIs(c: Client, t: Thread, alive: bool)
    requires Enabled(c, Finish(t, true, false)) && c.sock.Some? && c.inFlight > 0 && c.fromThread == Some(t)
    ensures Busy(Refreshed(c, t, alive), t)
    ensures Refreshed(c, t, alive).sock == if alive then c.sock else Some(c.opens)
    ensures Refreshed(c, t, alive).frames == c.frames && Refreshed(c, t, alive).inFlight == c.inFlight
  {
  }

  lemma SetupIs(c: Client, t: Thread, alive: bool)
    requires Enabled(c, Finish(t, true, false)) && c.sock.Some? && c.inFlight > 0 && c.fromThread == Some(t)
    ensures var c' := Refreshed(c, t, alive);
            Enabled(c, Enter(t)) && Apply(c, Enter(t)) == Entered(c) &&
            Enabled(Entered(c), Setup(t, alive, true, true)) && c'.sock.Some? &&
            Apply(Entered(c), Setup(t, alive, true, true)) == Nested(c', Marked(c'.sock.value))
  {
    RefreshedIs(c, t, alive);
    var c' := Refreshed(c, t, alive);
    var frame := Marked(c'.sock.value);
    assert Connect(DropDead(Entered(c).(shouldClose := false), t, alive), t, true, true) == Entered(c');
    assert Entered(c').frames[|c.frames| := frame] == c.frames + [frame];
  }

  lemma NestedProcess(c: Client, t: Thread)
    requires Busy(c, t)
    ensures Enabled(Nested(c, Marked(c.sock.value)), Process(t))
    ensures Apply(Nested(c, Marked(c.sock.value)), Process(t)) == Nested(c, InUse(c.sock.value))
  {
    var frame := InUse(c.sock.value);
    assert (c.frames + [Marked(c.sock.value)])[|c.frames| := frame] == c.frames + [frame];
  }

  lemma NestedFinish(c: Client, t: Thread)
    requires Busy(c, t)
    ensures Enabled(Nested(c, InUse(c.sock.value)), Finish(t, true, false))
    ensures Apply(Nested(c, InUse(c.sock.value)), Finish(t, true, false)) == c
  {
    assert Nested(c, InUse(c.sock.value)).frames[..|c.frames|] == c.frames;
  }

  /** A whole nested send ends with the socket it used open and the flag clear. */
  lemma {:induction false} NestedSendClears(c: Client, t: Thread, alive: bool, rest: seq<Step>)
    requires Enabled(c, Finish(t, true, false)) && c.sock.Some? && c.inFlight > 0 && c.fromThread == Some(t)
    requires CanRun(Refreshed(c, t, alive), rest)
    ensures CanRun(c, NestedSend(t, alive) + rest)
    ensures After(c, NestedSend(t, alive) + rest) == After(Refreshed(c, t, alive), rest)
  {
    RefreshedIs(c, t, alive);
    SetupIs(c, t, alive);
    var c' := Refreshed(c, t, alive);
    NestedProcess(c', t);
    NestedFinish(c', t);
    hide Apply, Enabled, CanRun, After, Entered, Nested, Refreshed, Busy;
    var marked, used := Nested(c', Marked(c'.sock.value)), Nested(c', InUse(c'.sock.value));
    var last := [Finish(t, true, false)] + rest;
    var setup := Setup(t, alive, true, true);
    RunCons(used, Finish(t, true, false), rest);
    RunCons(marked, Process(t), last);
    RunCons(Entered(c), setup, [Process(t)] + last);
    RunCons(c, Enter(t), [setup] + ([Process(t)] + last));
    assert NestedSend(t, alive) + rest == [Enter(t)] + ([setup] + ([Process(t)] + last));
  }

  /** A nested send that starts after the `stop` forgets it: if both requests succeed with keep-alive, there
      is an open socket when the outer request ends, the stopped one if it still seemed alive and a new
      one if not. */
  lemma {:induction false} NestedSendForgetsStop(c: Client, t: Thread, stopper: Thread, alive: bool)
    requires Inv(c) && Enabled(c, Finish(t, true, false)) && c.sock.Some?
    ensures var steps := [Stop(stopper)] + (NestedSend(t, alive) + [Finish(t, true, false)]);
            CanRun(c, steps) && After(c, steps).sock == if alive then c.sock else Some(c.opens)
  {
    DepthFull(c.frames);
    var c0 := StopSection(c, stopper);
    var c1 := Refreshed(c0, t, alive);
    RefreshedIs(c0, t, alive);
    LastFinish(c1, t);
    hide Refreshed, Inv, Apply, Busy;
    NestedSendClears(c0, t, alive, [Finish(t, true, false)]);
    StopIs(c, stopper);
    RunCons(c, Stop(stopper), NestedSend(t, alive) + [Finish(t, true, false)]);
  }

  lemma StopIs(c: Client, stopper: Thread)
    ensures Enabled(c, Stop(stopper)) && Apply(c, Stop(stopper)) == StopSection(c, stopper)
  {
  }

  lemma {:induction false} LastFinish(c: Client, t: Thread)
    requires Busy(c, t)
    ensures CanRun(c, [Finish(t, true, false)]) && After(c, [Finish(t, true, false)]).sock == c.sock
  {
    var c' := Apply(c, Finish(t, true, false));
    assert [Finish(t, true, false)][1..] == [];
    assert CanRun(c', []) && After(c', []) == c';
  }

  // ---- What each step does to the socket ----------------------------------------------------------

  /** The step closes the socket there is. */
  predicate Closes(c: Client, step: Step) {
    match step
    case Enter(_) => false
    case Setup(_, alive, _, _) => !alive
    case Process(_) => false
    case ConnectionClose(_) => true
    case Finish(_, ret, closeConnection) => c.shouldClose || closeConnection || !ret
    case Stop(_) => c.inFlight == 0
  }

  /** A socket stays exactly until a step that closes it: a setup that finds it dead, the server's or the
      client's wish not to keep the connection, a failed request, a `stop` with nothing in flight, or the
      end of a request after a `stop`. Only a setup opens one: when there is none then, the connection
      is made and, for a TLS client, its handshake succeeds. The one opened is always a new one. */
  lemma {:induction false} SocketAfter(c: Client, step: Step)
    requires Inv(c) && Enabled(c, step)
    ensures var kept := c.sock.Some? && !Closes(c, step);
            Apply(c, step).sock ==
            if kept then c.sock
            else if step.Setup? && step.connects && (c.tls ==> step.secured) then Some(c.opens)
            else None
    ensures step.Setup? ==>
              |Apply(c, step).frames| == |c.frames| - (if Apply(c, step).sock.Some? then 0 else 1)
  {
    hide ClosedOnce, Depth;
    if step.Stop? { InFlightIsDepth(c); }
  }

  lemma InFlightIsDepth(c: Client)
    requires Inv(c)
    ensures c.inFlight >= 0
  {
  }

  /** Sockets that were shut down, all sockets closed among them. */
  ghost predicate ShutOk(c: Client) {
    && (forall s :: s in c.shut ==> s < c.opens)
    && (c.sock.Some? ==> c.sock.value < c.opens)
    && (forall i :: 0 <= i < |c.closes| ==> c.closes[i].sock in c.shut)
  }

  /** A `stop` met a request in flight on the present socket. */
  predicate Met(c: Client, steps: seq<Step>, met: bool)
    requires CanRun(c, steps)
    decreases |steps|
  {
    if steps == [] then met
    else
      var c' := Apply(c, steps[0]);
      var met' := c'.sock.Some? && c'.sock == c.sock && (met || (steps[0].Stop? && c.inFlight > 0));
      Met(c', steps[1..], met')
  }

  predicate IsShut(c: Client) { c.sock.Some? && c.sock.value in c.shut }

  lemma {:induction false} StepShut(c: Client, step: Step)
    requires ShutOk(c) && Enabled(c, step)
    ensures ShutOk(Apply(c, step))
    ensures var c' := Apply(c, step);
            IsShut(c') <==> c'.sock.Some? && c'.sock == c.sock && (IsShut(c) || (step.Stop? && c.inFlight > 0))
  {
    match step
    case Setup(t, alive, connects, secured) => SetupShut(c, t, alive, connects, secured);
    case Finish(t, ret, closeConnection) => CloseShut(Release(c), t);
    case ConnectionClose(t) => CloseShut(c, t);
    case Stop(t) => CloseShut(c, t);
    case Enter(_) =>
    case Process(_) =>
  }

  lemma CloseShut(c: Client, t: Thread)
    requires ShutOk(c)
    ensures ShutOk(CloseAll(c, t)) && CloseAll(c, t).sock == None && CloseAll(c, t).opens == c.opens
  {
  }

  lemma SetupShut(c: Client, t: Thread, alive: bool, connects: bool, secured: bool)
    requires ShutOk(c) && c.frames != []
    ensures var c' := SetupSection(c, t, alive, connects, secured);
            ShutOk(c') && (IsShut(c') <==> c'.sock.Some? && c'.sock == c.sock && IsShut(c))
  {
    hide CloseAll, CloseSocket;
    var c0 := c.(shouldClose := false);
    CloseShut(c0, t);
    RenewTouches(c0, t, alive, connects, secured);
    var c1 := DropDead(c0, t, alive);
    hide ShutOk;
    if c1.sock == None { ConnectShut(c1, t, connects, secured); }
    SameShut(Connect(c1, t, connects, secured), t);
  }

  lemma ConnectShut(c: Client, t: Thread, connects: bool, secured: bool)
    requires ShutOk(c) && c.sock == None
    ensures ShutOk(Connect(c, t, connects, secured))
    ensures Connect(c, t, connects, secured).sock.Some? ==>
              Connect(c, t, connects, secured).sock.value == c.opens && Connect(c, t, connects, secured).shut == c.shut
    ensures c.opens !in c.shut
  {
  }

  lemma SameShut(c: Client, t: Thread)
    requires ShutOk(c) && c.frames != []
    ensures ShutOk(if c.sock == None then Pop(c) else MarkInUse(c, t))
  {
  }

  /** Whatever happened, every socket closed had been shut down, and the present one is shut down exactly
      when a `stop` has met a request in flight on it. */
  lemma {:induction false} StopShutsDown(c: Client, steps: seq<Step>)
    requires ShutOk(c) && CanRun(c, steps)
    ensures var c' := After(c, steps);
            ShutOk(c') && (IsShut(c') <==> Met(c, steps, IsShut(c)))
    decreases |steps|
  {
    hide Apply, Enabled, ShutOk, IsShut;
    if steps != [] {
      StepShut(c, steps[0]);
      StopShutsDown(Apply(c, steps[0]), steps[1..]);
    }
  }
}
