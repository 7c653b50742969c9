/** `HawkbitCommunicationClient` against any server, any user callbacks and other threads that ask for a
    stop or a poll at any time. Whatever those decide is an arbitrary value here. */
module DdiClient {
  import opened Text
  import opened Uri
  import opened DdiProtocol

  datatype Outcome<+T> = Done(value: T) | Threw(exception: Exception)

  /** `wrappedRequest` after the request: library errors and statuses become exceptions. */
  function CheckHttpCode(a: Answer): Outcome<Answer> {
    if a.LibError? then Threw(HttpLibError)
    else if a.status == HTTP_UNAUTHORIZED then Threw(Unauthorized)
    else if a.status != HTTP_OK then Threw(UnexpectedCode)
    else Done(a)
  }

  /** What one `retryHandler` call adds to the history, and how it ends: one request, or a refused one, one
      call of the authorization handler and, if that returns, a second request. */
  ghost predicate Attempts(sent: History, target: Target, restorable: bool, r: Outcome<Answer>) {
    |sent| >= 1 && sent[0].Sent? && sent[0].target == target &&
    if !Refused(sent[0].answer) || !restorable then |sent| == 1 && r == CheckHttpCode(sent[0].answer)
    else
      |sent| >= 2 && sent[1].AuthError? &&
      if sent[1].threw.Some? then |sent| == 2 && r == Threw(sent[1].threw.value)
      else |sent| == 3 && sent[2].Sent? && sent[2].target == target && r == CheckHttpCode(sent[2].answer)
  }

  /** The poll has just got this answer for `target`. */
  ghost predicate Answered(poll: History, target: Target, a: Answer) {
    poll != [] && Got(poll[|poll| - 1], target) && poll[|poll| - 1].answer == a
  }

  lemma AttemptsMeaning(poll: History, sent: History, target: Target, restorable: bool, r: Outcome<Answer>)
    requires Attempts(sent, target, restorable, r)
    ensures sent != [] && sent[0].Sent? && sent[0].target == target
    ensures NoneHandled(sent) && (target != Root ==> NoneForRoot(sent))
    ensures r.Done? ==> r.value.Reply? && Answered(poll + sent, target, r.value)
    ensures r == Threw(UnexpectedCode) && target.Feedback? ==> FeedbackFailed(poll + sent)
  {
    assert sent[|sent| - 1] == (poll + sent)[|poll + sent| - 1];
    if |sent| >= 2 { assert sent[|sent| - 2] == (poll + sent)[|poll + sent| - 2]; }
  }

  lemma {:induction false} Stopping(t: History, byDefault: int)
    requires Safe(t, byDefault)
    ensures var u := t + [StopAsked];
            Safe(u, byDefault) && PhaseOf(u) != Active && (PhaseOf(t) != Active ==> PhaseOf(u) == PhaseOf(t)) &&
            (PhaseOf(t) == Active ==> PhaseOf(u) == Stopped) &&
            PollOf(u) == PollOf(t) && HasPolled(u) == HasPolled(t) && LastOwn(u) == LastOwn(t) &&
            PollPending(u) == PollPending(t) && Naps(u) == Naps(t)
  {
    hide Safe, PollOf, HasPolled, PhaseOf, LastOwn, PollPending, Naps;
    assert Justified(t, StopAsked, byDefault);
    SafeExtends(t, StopAsked, byDefault);
    Appending(t, StopAsked);
  }

  lemma RequestIsWellMade(target: Target, server: URI, root: string)
    requires target == Root || server == LinkOf(target)
    ensures WellMade(target, RequestOf(target, server, root))
  {
  }

  /** Only the poll request depends on the endpoint's path. */
  lemma RequestDependsOnRoot(target: Target, server: URI, root: string, later: string)
    ensures RequestOf(target, server, later) == RequestOf(target, server, root) <==> target != Root || later == root
  {
  }

  lemma AuthErrorFollows(poll: History, first: Event, asked: Event)
    requires first.Sent? && Refused(first.answer) && MayStart(poll, first.target) && asked.AuthError?
    ensures Follows(poll + [first], asked)
  {
    if poll != [] { assert (poll + [first])[|poll| - 1] == poll[|poll| - 1]; }
  }

  lemma {:induction false} AuthErrorIsJustified(t: History, asked: Event, byDefault: int)
    requires asked.AuthError? && HasPolled(t) && Follows(PollOf(t), asked)
    ensures Justified(t, asked, byDefault)
  {
  }

  lemma RetryIsAllowed(poll: History, target: Target, server: URI, root: string, later: string, answer: Answer)
    requires Refused(answer)
    ensures IsRetry(poll + [Sent(target, RequestOf(target, server, root), answer), AuthError(None)], target,
                    RequestOf(target, server, later))
  {
    var tail := [Sent(target, RequestOf(target, server, root), answer), AuthError(None)];
    var more := poll + tail;
    assert more[|more| - 1] == tail[1] && more[|more| - 2] == tail[0];
  }

  /** What an event of the handler tells at once. */
  lemma {:induction false} HandledNow(poll: History, e: Event, byDefault: int)
    requires IsHandled(e)
    ensures PauseOf(poll + [e], byDefault) == PauseOf(poll, byDefault)
    ensures e.HandledAction? ==> ResponseOf(poll + [e]) == e.response
    ensures e.HandledAction? && e.response.Some? ==> SkipsPause(poll + [e]) == e.response.value.ignoreSleep
    ensures e.HandledConfig? ==> SkipsPause(poll + [e]) == (!e.empty && e.ignoreSleep)
    ensures e.HandledConfig? && e.empty ==> IsOver(poll + [e])
    ensures e.HandledNothing? && NoneHandled(poll) ==> !SkipsPause(poll + [e])
  {
    var more := poll + [e];
    assert more[..|more| - 1] == poll && more[|more| - 1] == e;
    if NoneHandled(poll) {
      KeepsResponse([], poll);
      assert [] + poll == poll;
    }
  }

  /** What a call of `RetryHandler` for a link tells. */
  lemma {:induction false} AfterAttempts(
    poll: History, sent: History, target: Target, restorable: bool, r: Outcome<Answer>, byDefault: int)
    requires Attempts(sent, target, restorable, r) && target != Root
    ensures NoneHandled(poll) ==> NoneHandled(poll + sent)
    ensures PauseOf(poll + sent, byDefault) == PauseOf(poll, byDefault)
    ensures SkipsPause(poll + sent) == SkipsPause(poll) && ResponseOf(poll + sent) == ResponseOf(poll)
    ensures r.Done? ==> r.value.Reply? && Answered(poll + sent, target, r.value)
    ensures r.Done? && target.Config? ==> IsOver(poll + sent)
    ensures r == Threw(UnexpectedCode) && target.Feedback? ==> FeedbackFailed(poll + sent)
  {
    hide PauseOf, SkipsPause, ResponseOf, Attempts;
    AttemptsMeaning(poll, sent, target, restorable, r);
    KeepsResponse(poll, sent);
    KeepsPause(poll, sent, byDefault);
  }

  lemma {:induction false} ConfigIsJustified(t: History, uri: URI, e: Event, byDefault: int)
    requires HasPolled(t) && e.HandledConfig? && NoneHandled(PollOf(t))
    requires PollOf(t) != [] && GotTodo(PollOf(t)[|PollOf(t)| - 1], Configure(uri))
    ensures Justified(t, e, byDefault)
  {
  }

  lemma ConfigMayStart(poll: History, uri: URI, e: Event)
    requires poll != [] && GotTodo(poll[|poll| - 1], Configure(uri)) && e.HandledConfig? && !e.empty
    ensures MayStart(poll + [e], Config(uri))
  {
  }

  lemma ActionMayStart(poll: History, kind: Kind, uri: URI)
    requires poll != [] && GotTodo(poll[|poll| - 1], Act(kind, uri))
    ensures MayStart(poll, Action(kind, uri))
  {
  }

  lemma {:induction false} ActionIsJustified(t: History, kind: Kind, uri: URI, a: Answer, e: Event, byDefault: int)
    requires HasPolled(t) && e.HandledAction? && e.kind == kind && NoneHandled(PollOf(t))
    requires Answered(PollOf(t), Action(kind, uri), a) && a.action == Some(e.id)
    ensures Justified(t, e, byDefault)
  {
  }

  lemma FeedbackMayStart(poll: History, kind: Kind, uri: URI, a: Answer, e: Event)
    requires e.HandledAction? && e.kind == kind && e.response.Some?
    requires Answered(poll, Action(kind, uri), a) && a.action == Some(e.id)
    ensures MayStart(poll + [e], Feedback(kind, uri, e.id))
  {
  }

  lemma QuietEnd(poll: History, target: Target, a: Answer)
    requires target.Feedback? && Answered(poll, target, a) && !HasListener(poll)
    ensures poll != [] && IsOver(poll)
  {
  }

  lemma UnexpectedFollows(poll: History)
    requires FeedbackFailed(poll) && HasListener(poll)
    ensures Follows(poll, NotDelivered)
  {
  }

  lemma {:induction false} ReportIsJustified(t: History, e: Event, byDefault: int)
    requires HasPolled(t) && IsReport(e)
    requires Follows(PollOf(t), e) ||
             (e.Delivered? && HasListener(PollOf(t)) && PollOf(t) != [] && GotFeedback(PollOf(t)[|PollOf(t)| - 1]))
    ensures Justified(t, e, byDefault)
  {
  }

  lemma {:induction false} Reported(poll: History, e: Event, byDefault: int)
    requires IsReport(e)
    ensures PauseOf(poll + [e], byDefault) == PauseOf(poll, byDefault)
    ensures SkipsPause(poll + [e]) == SkipsPause(poll)
    ensures e == Delivered(None) || e.NotDelivered? ==> IsOver(poll + [e])
    ensures e == Delivered(Some(UnexpectedCode)) && HasListener(poll) ==> Follows(poll + [e], NotDelivered)
  {
    hide PauseOf, SkipsPause, ResponseOf;
    KeepsResponse(poll, [e]);
    KeepsPause(poll, [e], byDefault);
  }

  lemma {:induction false} PolledNow(sent: History, a: Answer, byDefault: int)
    requires Answered(sent, Root, a) && a.polled.Some? && NoneHandled(sent)
    ensures GotTodo(sent[|sent| - 1], a.polled.value.todo)
    ensures PauseOf(sent, byDefault) == SleepTime(a.polled.value, byDefault)
  {
  }

  lemma {:induction false} NothingIsJustified(t: History, byDefault: int)
    requires HasPolled(t) && NoneHandled(PollOf(t))
    requires PollOf(t) != [] && GotTodo(PollOf(t)[|PollOf(t)| - 1], Nothing)
    ensures Justified(t, HandledNothing, byDefault)
  {
  }

  lemma NothingIsOver(poll: History)
    ensures IsOver(poll + [HandledNothing])
  {
  }

  lemma {:induction false} EndIsJustified(t: History, byDefault: int)
    requires HasPolled(t) && PollOf(t) != [] && IsOver(PollOf(t))
    ensures Justified(t, PollEnds, byDefault)
    ensures SkipsPause(PollOf(t) + [PollEnds]) == SkipsPause(PollOf(t))
    ensures PauseOf(PollOf(t) + [PollEnds], byDefault) == PauseOf(PollOf(t), byDefault)
  {
    hide PauseOf, SkipsPause, ResponseOf;
    KeepsResponse(PollOf(t), [PollEnds]);
    KeepsPause(PollOf(t), [PollEnds], byDefault);
  }

  lemma StartIsJustified(byDefault: int)
    ensures Justified([], EndpointAsked, byDefault) && !HasPolled([])
  {
  }

  /** The start of a run forgets earlier requests to stop. */
  lemma {:induction false} RunMayBegin(t: History, byDefault: int)
    requires !HasPolled(t)
    ensures Justified(t, RunBegins, byDefault) && PauseOver(t, byDefault)
  {
  }

  /** A flag that was read allows what comes next, whatever other threads do in between. */
  lemma {:induction false} FlagsAllow(t: History, byDefault: int)
    ensures PhaseOf(t) == Active ==> Justified(t, SawRunning, byDefault)
    ensures !PollPending(t) && LastOwn(t) == Some(SawRunning) ==> Justified(t, SawNoRequest, byDefault)
    ensures PauseOver(t, byDefault) && LastOwn(t) == Some(SawRunning) ==> Justified(t, PollBegins, byDefault)
  {
  }

  lemma {:induction false} NapIsAllowed(t: History, byDefault: int)
    requires LastOwn(t) == Some(SawNoRequest) && Ended(PollOf(t)) && !SkipsPause(PollOf(t))
    requires Naps(t) < PauseOf(PollOf(t), byDefault) / 1000
    ensures Justified(t, Napped, byDefault)
  {
  }

  class HawkbitCommunicationClient {
    var hawkbitURI: URI
    var currentSleepTime: int
    var ignoreSleep: bool
    var isRunning: bool
    var pollRequested: bool
    const defaultSleepTime: int
    /** Whether an `AuthErrorHandler` is set. */
    const restorable: bool
    ghost var trace: History

    /** The history keeps the rules, and `isRunning` says whether the run goes on. */
    ghost predicate Valid()
      reads `isRunning, `trace
    {
      Safe(trace, defaultSleepTime) && (isRunning <==> PhaseOf(trace) == Active) &&
      (HasPolled(trace) ==> PhaseOf(trace) != Idle)
    }

    constructor (endpoint: URI, defaultSleepTime: int, restorable: bool)
      ensures Valid() && trace == [] && hawkbitURI == endpoint
      ensures this.defaultSleepTime == defaultSleepTime && this.restorable == restorable
    {
      hawkbitURI, currentSleepTime, ignoreSleep, isRunning, pollRequested := endpoint, 0, false, false, false;
      this.defaultSleepTime, this.restorable, trace := defaultSleepTime, restorable, [];
    }

    ghost method Record(e: Event)
      requires Valid() && Justified(trace, e, defaultSleepTime)
      requires !e.StopAsked? && !e.RunBegins? && (e.PollBegins? ==> PhaseOf(trace) != Idle)
      modifies `trace
      ensures Valid() && trace == old(trace) + [e]
      ensures PollOf(trace) ==
              if e.PollBegins? then [] else if InPoll(e) then old(PollOf(trace)) + [e] else old(PollOf(trace))
      ensures HasPolled(trace) == (old(HasPolled(trace)) || e.PollBegins?) && PhaseOf(trace) == old(PhaseOf(trace))
      ensures LastOwn(trace) == if Asked(e) then old(LastOwn(trace)) else Some(e)
      ensures PollPending(trace) == (!e.PollEnds? && (e.PollAsked? || old(PollPending(trace))))
      ensures Naps(trace) ==
              if e.PollEnds? || e.PollBegins? then 0 else old(Naps(trace)) + (if e.Napped? then 1 else 0)
    {
      hide Safe, PollOf, InPoll, HasPolled, PhaseOf, LastOwn, PollPending, Naps;
      SafeExtends(trace, e, defaultSleepTime);
      Appending(trace, e);
      hide Justified;
      trace := trace + [e];
    }

    /** Other threads: any number of calls of `stop` and `requestToPoll`. */
    method Others()
      requires Valid()
      modifies `isRunning, `pollRequested, `trace
      ensures Valid() && PollOf(trace) == old(PollOf(trace)) && Naps(trace) == old(Naps(trace))
      ensures HasPolled(trace) == old(HasPolled(trace)) && LastOwn(trace) == old(LastOwn(trace))
      ensures PhaseOf(trace) == old(PhaseOf(trace)) || (old(PhaseOf(trace)) == Active && PhaseOf(trace) == Stopped)
      ensures old(PollPending(trace)) ==> PollPending(trace)
      ensures old(pollRequested == PollPending(trace)) ==> pollRequested == PollPending(trace)
    {
      hide Safe, PollOf, HasPolled, PhaseOf, LastOwn, PollPending, Naps;
      var calls: int := *;
      while calls > 0
        invariant Valid() && PollOf(trace) == old(PollOf(trace)) && Naps(trace) == old(Naps(trace))
        invariant HasPolled(trace) == old(HasPolled(trace)) && LastOwn(trace) == old(LastOwn(trace))
        invariant PhaseOf(trace) == old(PhaseOf(trace)) || (old(PhaseOf(trace)) == Active && PhaseOf(trace) == Stopped)
        invariant old(PollPending(trace)) ==> PollPending(trace)
        invariant old(pollRequested == PollPending(trace)) ==> pollRequested == PollPending(trace)
      {
        var stop: bool := *;
        if stop { Stop(); } else { RequestToPoll(); }
        calls := calls - 1;
      }
    }

    /** `stop`. */
    method Stop()
      requires Valid()
      modifies `isRunning, `trace
      ensures Valid() && trace == old(trace) + [StopAsked] && !isRunning
      ensures PollOf(trace) == old(PollOf(trace)) && Naps(trace) == old(Naps(trace))
      ensures HasPolled(trace) == old(HasPolled(trace)) && LastOwn(trace) == old(LastOwn(trace))
      ensures PhaseOf(trace) == if old(PhaseOf(trace)) == Active then Stopped else old(PhaseOf(trace))
      ensures PollPending(trace) == old(PollPending(trace))
    {
      hide Safe, PollOf, HasPolled, PhaseOf, LastOwn, PollPending, Naps;
      isRunning := false;
      Stopping(trace, defaultSleepTime);
      trace := trace + [StopAsked];
    }

    /** `requestToPoll`. */
    method RequestToPoll()
      requires Valid()
      modifies `pollRequested, `trace
      ensures Valid() && trace == old(trace) + [PollAsked] && pollRequested && PollPending(trace)
      ensures PollOf(trace) == old(PollOf(trace)) && Naps(trace) == old(Naps(trace))
      ensures HasPolled(trace) == old(HasPolled(trace)) && LastOwn(trace) == old(LastOwn(trace))
      ensures PhaseOf(trace) == old(PhaseOf(trace))
    {
      hide Safe, PollOf, HasPolled, PhaseOf, LastOwn, PollPending, Naps;
      pollRequested := true;
      Record(PollAsked);
    }

    /** Reads `isRunning`; then other threads may act before the client does. */
    method ReadRunning() returns (go: bool)
      requires Valid() && PhaseOf(trace) != Idle
      modifies `isRunning, `pollRequested, `trace
      ensures Valid() && PhaseOf(trace) != Idle && go == old(isRunning) && (isRunning ==> go)
      ensures PollOf(trace) == old(PollOf(trace)) && Naps(trace) == old(Naps(trace))
      ensures HasPolled(trace) == old(HasPolled(trace)) && (old(PollPending(trace)) ==> PollPending(trace))
      ensures old(pollRequested == PollPending(trace)) ==> pollRequested == PollPending(trace)
      ensures go ==> LastOwn(trace) == Some(SawRunning)
    {
      hide Safe, PollOf, HasPolled, PhaseOf, LastOwn, PollPending, Naps, Justified;
      go := isRunning;
      if go {
        FlagsAllow(trace, defaultSleepTime);
        Record(SawRunning);
      }
      Others();
    }

    /** Reads `pollRequested`, in the same way. */
    method ReadRequest() returns (asked: bool)
      requires Valid() && LastOwn(trace) == Some(SawRunning) && pollRequested == PollPending(trace)
      modifies `isRunning, `pollRequested, `trace
      ensures Valid() && asked == old(pollRequested) && pollRequested == PollPending(trace)
      ensures PollOf(trace) == old(PollOf(trace)) && Naps(trace) == old(Naps(trace))
      ensures HasPolled(trace) == old(HasPolled(trace)) && (old(PollPending(trace)) ==> PollPending(trace))
      ensures PhaseOf(trace) == old(PhaseOf(trace)) || (old(PhaseOf(trace)) == Active && PhaseOf(trace) == Stopped)
      ensures !asked ==> LastOwn(trace) == Some(SawNoRequest)
    {
      hide Safe, PollOf, HasPolled, PhaseOf, LastOwn, PollPending, Naps, Justified;
      asked := pollRequested;
      if !asked {
        FlagsAllow(trace, defaultSleepTime);
        Record(SawNoRequest);
      }
      Others();
    }

    /** `wrappedRequest`: one request to `server`, the path being made up when it is sent. */
    method WrappedRequest(target: Target, server: URI) returns (r: Outcome<Answer>, ghost answer: Answer)
      requires Valid() && HasPolled(trace) && (target == Root || server == LinkOf(target))
      requires MayStart(PollOf(trace), target) ||
               IsRetry(PollOf(trace), target, RequestOf(target, server, hawkbitURI.path))
      modifies `isRunning, `pollRequested, `trace
      ensures Valid() && HasPolled(trace) && r == CheckHttpCode(answer)
      ensures PollOf(trace) ==
              old(PollOf(trace)) + [Sent(target, RequestOf(target, server, hawkbitURI.path), answer)]
    {
      hide Safe, PollOf, HasPolled, PhaseOf, LastOwn, PollPending, Naps, IsRetry, MayStart, RequestOf;
      var a: Answer := *;
      answer := a;
      RequestIsWellMade(target, server, hawkbitURI.path);
      Record(Sent(target, RequestOf(target, server, hawkbitURI.path), a));
      Others();
      r := CheckHttpCode(a);
    }

    /** `onAuthError`: the handler may set a new endpoint, and may throw. */
    method OnAuthError(ghost e: Event)
      requires Valid() && Justified(trace, e, defaultSleepTime) && (e.AuthError? || e.EndpointAsked?)
      modifies `isRunning, `pollRequested, `trace, `hawkbitURI
      ensures Valid() && HasPolled(trace) == old(HasPolled(trace))
      ensures PollOf(trace) == if e.AuthError? then old(PollOf(trace)) + [e] else old(PollOf(trace))
    {
      hide Safe, PollOf, HasPolled, PhaseOf, LastOwn, PollPending, Naps, Justified;
      Record(e);
      hawkbitURI := *;
      Others();
    }

    /** `retryHandler`. Both attempts go to `server`; the path of a poll request is read from the endpoint
        each time, so the second one differs exactly when the handler changed the endpoint's path. */
    method RetryHandler(target: Target, server: URI) returns (r: Outcome<Answer>, ghost sent: History)
      requires Valid() && HasPolled(trace) && (target == Root || server == LinkOf(target))
      requires MayStart(PollOf(trace), target)
      modifies `isRunning, `pollRequested, `trace, `hawkbitURI
      ensures Valid() && HasPolled(trace) && PollOf(trace) == old(PollOf(trace)) + sent
      ensures Attempts(sent, target, restorable, r)
      ensures sent[0].request == RequestOf(target, server, old(hawkbitURI.path))
      ensures |sent| == 3 ==> sent[2].request == RequestOf(target, server, hawkbitURI.path)
      ensures |sent| == 3 ==>
                (sent[2].request == sent[0].request <==> target != Root || hawkbitURI.path == old(hawkbitURI.path))
    {
      hide HawkbitCommunicationClient.Valid;
      hide Safe, PollOf, HasPolled, PhaseOf, LastOwn, PollPending, Naps, MayStart, RequestOf, Justified, IsRetry;
      ghost var poll := PollOf(trace);
      ghost var answer;
      ghost var root := hawkbitURI.path;
      r, answer := WrappedRequest(target, server);
      ghost var first := Sent(target, RequestOf(target, server, root), answer);
      sent := [first];
      if r != Threw(Unauthorized) || !restorable { return; }
      var threw: Option<Exception> := *;
      ghost var asked := AuthError(threw);
      AuthErrorFollows(poll, first, asked);
      AuthErrorIsJustified(trace, asked, defaultSleepTime);
      OnAuthError(asked);
      sent := sent + [asked];
      assert sent == [first, asked] && PollOf(trace) == poll + sent;
      if threw.Some? { return Threw(threw.value), sent; }
      assert PollOf(trace) == poll + [first, AuthError(None)];
      RetryIsAllowed(poll, target, server, root, hawkbitURI.path, answer);
      RequestDependsOnRoot(target, server, root, hawkbitURI.path);
      root := hawkbitURI.path;
      r, answer := WrappedRequest(target, server);
      sent := sent + [Sent(target, RequestOf(target, server, root), answer)];
    }

    /** `followConfigData`. */
    method FollowConfigData(uri: URI) returns (r: Outcome<()>)
      requires Valid() && HasPolled(trace)
      requires PollOf(trace) != [] && GotTodo(PollOf(trace)[|PollOf(trace)| - 1], Configure(uri))
      requires NoneHandled(PollOf(trace)) && !ignoreSleep
      modifies `isRunning, `pollRequested, `trace, `hawkbitURI, `ignoreSleep
      ensures Valid() && HasPolled(trace) && old(PollOf(trace)) <= PollOf(trace)
      ensures r.Done? ==> PollOf(trace) != [] && IsOver(PollOf(trace)) && ignoreSleep == SkipsPause(PollOf(trace))
      ensures PauseOf(PollOf(trace), defaultSleepTime) == old(PauseOf(PollOf(trace), defaultSleepTime))
    {
      hide HawkbitCommunicationClient.Valid;
      hide Safe, PollOf, HasPolled, PhaseOf, LastOwn, PollPending, Naps, Justified, Attempts, PauseOf, SkipsPause;
      hide IsOver, Got, GotTodo, MayStart, ResponseOf, NoneHandled;
      ghost var poll := PollOf(trace);
      var empty: bool, ignore: bool := *, *;
      ghost var handled := HandledConfig(empty, ignore);
      ConfigIsJustified(trace, uri, handled, defaultSleepTime);
      Record(handled);
      Others();
      HandledNow(poll, handled, defaultSleepTime);
      var threw: bool := *;
      if threw { return Threw(UserException); }
      if empty { return Done(()); }
      ConfigMayStart(poll, uri, handled);
      ghost var asked := PollOf(trace);
      var put, sent := RetryHandler(Config(uri), uri);
      AfterAttempts(asked, sent, Config(uri), restorable, put, defaultSleepTime);
      if put.Threw? { return Threw(put.exception); }
      ignoreSleep := ignore;
      r := Done(());
    }

    /** `followCancelAction` and `followDeploymentBase`, which differ in the handler's method only. */
    method FollowAction(kind: Kind, uri: URI) returns (r: Outcome<()>)
      requires Valid() && HasPolled(trace)
      requires PollOf(trace) != [] && GotTodo(PollOf(trace)[|PollOf(trace)| - 1], Act(kind, uri))
      requires NoneHandled(PollOf(trace))
      modifies `isRunning, `pollRequested, `trace, `hawkbitURI, `ignoreSleep
      ensures Valid() && HasPolled(trace) && old(PollOf(trace)) <= PollOf(trace)
      ensures r.Done? ==> PollOf(trace) != [] && IsOver(PollOf(trace)) && ignoreSleep == SkipsPause(PollOf(trace))
      ensures PauseOf(PollOf(trace), defaultSleepTime) == old(PauseOf(PollOf(trace), defaultSleepTime))
    {
      hide HawkbitCommunicationClient.Valid;
      hide Safe, PollOf, HasPolled, PhaseOf, LastOwn, PollPending, Naps, Justified, Attempts, PauseOf, SkipsPause;
      hide ResponseOf, IsOver, Got, GotTodo, GotAction, MayStart;
      ghost var poll := PollOf(trace);
      ActionMayStart(poll, kind, uri);
      var got, sent := RetryHandler(Action(kind, uri), uri);
      AfterAttempts(poll, sent, Action(kind, uri), restorable, got, defaultSleepTime);
      if got.Threw? { return Threw(got.exception); }
      if got.value.action.None? { return Threw(UnexpectedPayload); }
      var id := got.value.action.value;
      poll := PollOf(trace);
      var response: Option<Response> := *;
      ghost var handled := HandledAction(kind, id, response);
      ActionIsJustified(trace, kind, uri, got.value, handled, defaultSleepTime);
      Record(handled);
      Others();
      HandledNow(poll, handled, defaultSleepTime);
      if response.None? {
        var threw: bool := *;
        return Threw(if threw then UserException else WrongResponse);
      }
      FeedbackMayStart(poll, kind, uri, got.value, handled);
      r := SendFeedback(kind, uri, id, response.value);
      if r.Done? { ignoreSleep := response.value.ignoreSleep; }
    }

    /** The part of both methods from the feedback request on, with its `try` block. */
    method SendFeedback(kind: Kind, uri: URI, id: int, response: Response) returns (r: Outcome<()>)
      requires Valid() && HasPolled(trace) && MayStart(PollOf(trace), Feedback(kind, uri, id))
      requires ResponseOf(PollOf(trace)) == Some(response)
      modifies `isRunning, `pollRequested, `trace, `hawkbitURI
      ensures Valid() && HasPolled(trace) && old(PollOf(trace)) <= PollOf(trace)
      ensures r.Done? ==> PollOf(trace) != [] && IsOver(PollOf(trace))
      ensures SkipsPause(PollOf(trace)) == old(SkipsPause(PollOf(trace)))
      ensures PauseOf(PollOf(trace), defaultSleepTime) == old(PauseOf(PollOf(trace), defaultSleepTime))
    {
      hide HawkbitCommunicationClient.Valid;
      hide Safe, PollOf, HasPolled, PhaseOf, LastOwn, PollPending, Naps, Justified, Attempts, PauseOf, SkipsPause;
      hide ResponseOf, MayStart, IsOver, Got, GotFeedback;
      ghost var poll := PollOf(trace);
      var target := Feedback(kind, uri, id);
      var sentOff, sent := RetryHandler(target, uri);
      AfterAttempts(poll, sent, target, restorable, sentOff, defaultSleepTime);
      if sentOff.Done? {
        if !response.listener {
          QuietEnd(PollOf(trace), target, sentOff.value);
          return Done(());
        }
        r := ReportSuccess(target, sentOff.value);
      } else if sentOff.exception == UnexpectedCode && response.listener {
        UnexpectedFollows(PollOf(trace));
        r := ReportError();
      } else {
        r := Threw(sentOff.exception);
      }
    }

    method ReportSuccess(ghost target: Target, ghost a: Answer) returns (r: Outcome<()>)
      requires Valid() && HasPolled(trace) && HasListener(PollOf(trace))
      requires target.Feedback? && Answered(PollOf(trace), target, a)
      modifies `isRunning, `pollRequested, `trace
      ensures Valid() && HasPolled(trace) && old(PollOf(trace)) <= PollOf(trace)
      ensures r.Done? ==> PollOf(trace) != [] && IsOver(PollOf(trace))
      ensures SkipsPause(PollOf(trace)) == old(SkipsPause(PollOf(trace)))
      ensures PauseOf(PollOf(trace), defaultSleepTime) == old(PauseOf(PollOf(trace), defaultSleepTime))
    {
      hide HawkbitCommunicationClient.Valid;
      hide Safe, PollOf, HasPolled, PhaseOf, LastOwn, PollPending, Naps, Justified, PauseOf, SkipsPause, ResponseOf;
      ghost var poll := PollOf(trace);
      var threw: Option<Exception> := *;
      ghost var report := Delivered(threw);
      ReportIsJustified(trace, report, defaultSleepTime);
      Record(report);
      Others();
      Reported(poll, report, defaultSleepTime);
      if threw.None? { return Done(()); }
      if threw == Some(UnexpectedCode) {
        r := ReportError();
      } else {
        r := Threw(threw.value);
      }
    }

    method ReportError() returns (r: Outcome<()>)
      requires Valid() && HasPolled(trace) && Follows(PollOf(trace), NotDelivered)
      modifies `isRunning, `pollRequested, `trace
      ensures Valid() && HasPolled(trace) && old(PollOf(trace)) <= PollOf(trace)
      ensures r.Done? ==> PollOf(trace) != [] && IsOver(PollOf(trace))
      ensures SkipsPause(PollOf(trace)) == old(SkipsPause(PollOf(trace)))
      ensures PauseOf(PollOf(trace), defaultSleepTime) == old(PauseOf(PollOf(trace), defaultSleepTime))
    {
      hide Safe, PollOf, HasPolled, PhaseOf, LastOwn, PollPending, Naps, Justified, PauseOf, SkipsPause, ResponseOf;
      ghost var poll := PollOf(trace);
      ReportIsJustified(trace, NotDelivered, defaultSleepTime);
      Record(NotDelivered);
      Others();
      Reported(poll, NotDelivered, defaultSleepTime);
      var threw: bool := *;
      r := if threw then Threw(UserException) else Done(());
    }

    /** The switch of `doPoll` over what the poll's answer asks for. */
    method FollowPoll(todo: Todo) returns (r: Outcome<()>)
      requires Valid() && HasPolled(trace) && !ignoreSleep
      requires NoneHandled(PollOf(trace)) && PollOf(trace) != [] && GotTodo(PollOf(trace)[|PollOf(trace)| - 1], todo)
      modifies `isRunning, `pollRequested, `trace, `hawkbitURI, `ignoreSleep
      ensures Valid() && HasPolled(trace) && old(PollOf(trace)) <= PollOf(trace)
      ensures r.Done? ==> PollOf(trace) != [] && IsOver(PollOf(trace)) && ignoreSleep == SkipsPause(PollOf(trace))
      ensures PauseOf(PollOf(trace), defaultSleepTime) == old(PauseOf(PollOf(trace), defaultSleepTime))
    {
      hide HawkbitCommunicationClient.Valid;
      hide Safe, PollOf, HasPolled, PhaseOf, LastOwn, PollPending, Naps, Justified, PauseOf, SkipsPause;
      hide IsOver, Got, GotTodo, ResponseOf, NoneHandled;
      ghost var poll := PollOf(trace);
      match todo
      case Nothing =>
        NothingIsJustified(trace, defaultSleepTime);
        Record(HandledNothing);
        Others();
        HandledNow(poll, HandledNothing, defaultSleepTime);
        NothingIsOver(poll);
        var threw: bool := *;
        r := if threw then Threw(UserException) else Done(());
      case Configure(uri) => r := FollowConfigData(uri);
      case Act(kind, uri) => r := FollowAction(kind, uri);
    }

    /** `doPoll`. */
    method DoPoll() returns (r: Outcome<()>)
      requires Valid() && Justified(trace, PollBegins, defaultSleepTime) && PhaseOf(trace) != Idle && !ignoreSleep
      modifies this
      ensures Valid() && HasPolled(trace)
      ensures var endpoint := old(hawkbitURI);
              PollOf(trace) != [] && PollOf(trace)[0].Sent? && PollOf(trace)[0].target == Root &&
              PollOf(trace)[0].request == Request(Get, endpoint.scheme, endpoint.authority, endpoint.path, None)
      ensures r.Done? ==> PollOf(trace) != [] && IsOver(PollOf(trace)) && ignoreSleep == SkipsPause(PollOf(trace))
      ensures r.Done? ==> currentSleepTime == PauseOf(PollOf(trace), defaultSleepTime)
    {
      hide HawkbitCommunicationClient.Valid;
      hide Safe, PollOf, HasPolled, PhaseOf, LastOwn, PollPending, Naps, Justified, Attempts, PauseOf, SkipsPause;
      hide IsOver, Got, GotTodo, ResponseOf, NoneHandled;
      Record(PollBegins);
      assert PollOf(trace) == [];
      var got, sent := RetryHandler(Root, hawkbitURI);
      AttemptsMeaning([], sent, Root, restorable, got);
      assert [] + sent == sent;
      if got.Threw? { return Threw(got.exception); }
      if got.value.polled.None? { return Threw(UnexpectedPayload); }
      var data := got.value.polled.value;
      currentSleepTime := SleepTime(data, defaultSleepTime);
      PolledNow(sent, got.value, defaultSleepTime);
      r := FollowPoll(data.todo);
    }

    /** `run`, watched for at most `polls` polls. */
    method Run(polls: nat) returns (r: Outcome<()>, n: nat)
      requires Valid() && trace == []
      modifies this
      ensures Valid() && n <= polls && (n > 0 ==> HasPolled(trace))
      ensures r.Done? && n < polls ==> PhaseOf(trace) == Stopped
      ensures !old(hawkbitURI.IsEmpty()) || restorable || (r == Threw(ClientInitializeError) && trace == [])
    {
      hide Safe, PollOf, PhaseOf, LastOwn, PollPending, Naps, HasPolled;
      StartIsJustified(defaultSleepTime);
      hide Justified;
      n := 0;
      if hawkbitURI.IsEmpty() {
        if !restorable { return Threw(ClientInitializeError), 0; }
        var threw: bool := *;
        OnAuthError(EndpointAsked);
        if threw { return Threw(UserException), 0; }
      }
      BeginRun();
      Others();
      var go := ReadRunning();
      while go && n < polls
        invariant Valid() && n <= polls && PhaseOf(trace) != Idle && (n > 0 ==> HasPolled(trace))
        invariant if go then LastOwn(trace) == Some(SawRunning) && PauseOver(trace, defaultSleepTime) else !isRunning
        decreases polls - n
      {
        FlagsAllow(trace, defaultSleepTime);
        r := PollAndSleep();
        n := n + 1;
        if r.Threw? { return; }
        go := ReadRunning();
      }
      r := Done(());
    }

    method BeginRun()
      requires Valid() && !HasPolled(trace)
      modifies `isRunning, `trace
      ensures Valid() && !HasPolled(trace) && PhaseOf(trace) == Active && PauseOver(trace, defaultSleepTime)
    {
      hide Safe, PollOf, HasPolled, PhaseOf, LastOwn, PollPending, Naps, Justified, PauseOver;
      isRunning := true;
      RunMayBegin(trace, defaultSleepTime);
      SafeExtends(trace, RunBegins, defaultSleepTime);
      Appending(trace, RunBegins);
      trace := trace + [RunBegins];
      RunMayBegin(trace, defaultSleepTime);
    }

    /** The body of the loop in `run`, after its test. */
    method PollAndSleep() returns (r: Outcome<()>)
      requires Valid() && Justified(trace, PollBegins, defaultSleepTime) && PhaseOf(trace) != Idle
      modifies this
      ensures Valid() && HasPolled(trace)
      ensures r.Done? && isRunning ==> PauseOver(trace, defaultSleepTime)
    {
      hide Safe, PollOf, HasPolled, PhaseOf, LastOwn, PollPending, Naps, IsOver, PauseOf, SkipsPause, Justified;
      hide PauseOver;
      ignoreSleep := false;
      r := DoPoll();
      if r.Threw? { return; }
      EndIsJustified(trace, defaultSleepTime);
      Record(PollEnds);
      pollRequested := false;
      Others();
      Sleep();
    }

    /** The pause in `run` after a poll. */
    method Sleep()
      requires Valid() && HasPolled(trace) && Ended(PollOf(trace)) && Naps(trace) == 0
      requires pollRequested == PollPending(trace)
      requires ignoreSleep == SkipsPause(PollOf(trace))
      requires currentSleepTime == PauseOf(PollOf(trace), defaultSleepTime)
      modifies `isRunning, `pollRequested, `trace
      ensures Valid() && HasPolled(trace) && PollOf(trace) == old(PollOf(trace))
      ensures isRunning ==> PauseOver(trace, defaultSleepTime)
    {
      hide Safe, PollOf, HasPolled, PhaseOf, LastOwn, PollPending, Naps, PauseOf, SkipsPause, Justified;
      if !ignoreSleep && currentSleepTime > 0 {
        var i := 0;
        while i < currentSleepTime / 1000
          invariant Valid() && HasPolled(trace) && PollOf(trace) == old(PollOf(trace))
          invariant 0 <= i <= currentSleepTime / 1000 && Naps(trace) == i && pollRequested == PollPending(trace)
        {
          var go := ReadRunning();
          if !go { break; }
          var asked := ReadRequest();
          if asked { break; }
          NapIsAllowed(trace, defaultSleepTime);
          Record(Napped);
          Others();
          i := i + 1;
        }
      }
    }
  }
}
