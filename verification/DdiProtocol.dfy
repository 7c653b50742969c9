/** The rules of the hawkBit polling protocol, as histories of what a client did: which event may follow
    which, and what that means for whole histories. */
module DdiProtocol {
  import opened Text
  import opened Uri
  import N = Numerals

  const HTTP_OK := 200
  const HTTP_UNAUTHORIZED := 401

  datatype Exception =
    | Unauthorized | UnexpectedCode | HttpLibError | UnexpectedPayload | WrongResponse | ClientInitializeError
    | UserException

  datatype Kind = Cancel | Deployment

  /** What the server's poll answer asks for, with the link to follow. */
  datatype Todo = Nothing | Configure(uri: URI) | Act(kind: Kind, uri: URI)

  datatype PollingData = PollingData(sleepTime: int, todo: Todo)

  /** The outcome of one HTTP request: a library error, or a status and what `PollingData_::fromString` and
      the action readers make of the body, `None` where they throw. */
  datatype Answer = LibError | Reply(status: int, polled: Option<PollingData>, action: Option<int>)

  predicate Succeeded(a: Answer) { a.Reply? && a.status == HTTP_OK }

  predicate Refused(a: Answer) { a.Reply? && a.status == HTTP_UNAUTHORIZED }

  predicate Unexpected(a: Answer) { a.Reply? && a.status != HTTP_OK && a.status != HTTP_UNAUTHORIZED }

  /** What a request is for. */
  datatype Target = Root | Config(uri: URI) | Action(kind: Kind, uri: URI) | Feedback(kind: Kind, uri: URI, id: int)

  datatype Verb = Get | Put | Post

  /** `id` is the member of that name in the body, absent when the body has none. */
  datatype Request = Request(verb: Verb, scheme: string, authority: string, path: string, id: Option<string>)

  /** The handler's answer to an action. */
  datatype Response = Response(listener: bool, ignoreSleep: bool)

  datatype Event =
    | EndpointAsked | RunBegins | SawRunning | SawNoRequest | PollBegins | Napped | StopAsked | PollAsked
    | Sent(target: Target, request: Request, answer: Answer) | AuthError(threw: Option<Exception>)
    | HandledNothing | HandledConfig(empty: bool, ignoreSleep: bool)
    | HandledAction(kind: Kind, id: int, response: Option<Response>)
    | Delivered(threw: Option<Exception>) | NotDelivered
    | PollEnds

  type History = seq<Event>

  // ---- Requests -------------------------------------------------------------------------------

  function VerbOf(target: Target): Verb {
    match target
    case Root => Get
    case Config(_) => Put
    case Action(_, _) => Get
    case Feedback(_, _, _) => Post
  }

  /** The `id` member that `fillResponseDocument` adds: only for an id that is not negative. */
  function IdMember(actionId: int): (id: Option<string>) {
    if actionId >= 0 then Some(N.Digits(actionId, 10)) else None
  }

  function IdOf(target: Target): Option<string> {
    match target
    case Feedback(_, _, id) => IdMember(id)
    case Root => None
    case Config(_) => None
    case Action(_, _) => None
  }

  function FormatFeedbackPath(path: string): string {
    (if path != "" && path[|path| - 1] == '/' then path else path + "/") + "feedback"
  }

  /** The path a request is sent to, `root` being that of the endpoint when it is sent. */
  function PathOf(target: Target, root: string): string {
    match target
    case Root => root
    case Config(uri) => uri.path
    case Action(_, uri) => uri.path
    case Feedback(_, uri, _) => FormatFeedbackPath(uri.path)
  }

  function RequestOf(target: Target, server: URI, root: string): Request {
    Request(VerbOf(target), server.scheme, server.authority, PathOf(target, root), IdOf(target))
  }

  /** The link a request follows. */
  function LinkOf(target: Target): URI
    requires target != Root
  {
    match target
    case Config(uri) => uri
    case Action(_, uri) => uri
    case Feedback(_, uri, _) => uri
  }

  // ---- One poll -------------------------------------------------------------------------------

  predicate InPoll(e: Event) {
    e.Sent? || e.AuthError? || IsHandled(e) || IsReport(e) || e.PollEnds?
  }

  predicate IsHandled(e: Event) { e.HandledNothing? || e.HandledConfig? || e.HandledAction? }

  predicate IsReport(e: Event) { e.Delivered? || e.NotDelivered? }

  /** The events of the last poll in `t`, leaving out what goes on around it. */
  function PollOf(t: History): History {
    if t == [] then []
    else
      var e := t[|t| - 1];
      if e.PollBegins? then []
      else if InPoll(e) then PollOf(t[..|t| - 1]) + [e]
      else PollOf(t[..|t| - 1])
  }

  predicate Got(e: Event, target: Target) { e.Sent? && e.target == target && Succeeded(e.answer) }

  predicate GotTodo(e: Event, todo: Todo) {
    Got(e, Root) && e.answer.polled.Some? && e.answer.polled.value.todo == todo
  }

  predicate GotConfigure(e: Event) {
    Got(e, Root) && e.answer.polled.Some? && e.answer.polled.value.todo.Configure?
  }

  predicate GotAction(e: Event, kind: Kind, uri: URI, id: int) {
    Got(e, Action(kind, uri)) && e.answer.action == Some(id)
  }

  predicate NoneHandled(poll: History) { forall i :: 0 <= i < |poll| ==> !IsHandled(poll[i]) }

  /** The response of the action handled last. */
  function ResponseOf(poll: History): Option<Response> {
    if poll == [] then None
    else if poll[|poll| - 1].HandledAction? then poll[|poll| - 1].response
    else ResponseOf(poll[..|poll| - 1])
  }

  predicate HasListener(poll: History) { ResponseOf(poll).Some? && ResponseOf(poll).value.listener }

  /** A second attempt is the refused request again, to the same server; only the path of a poll request
      is read anew, from the endpoint as the handler left it. */
  predicate IsRetry(poll: History, target: Target, request: Request) {
    |poll| >= 2 && poll[|poll| - 1] == AuthError(None) && poll[|poll| - 2].Sent? &&
    var first := poll[|poll| - 2];
    first.target == target && Refused(first.answer) &&
    first.request == request.(path := first.request.path) &&
    (target != Root ==> first.request == request)
  }

  /** What must have just happened for a first attempt. */
  predicate MayStart(poll: History, target: Target) {
    match target
    case Root => poll == []
    case Config(uri) =>
      |poll| >= 2 && poll[|poll| - 1].HandledConfig? && !poll[|poll| - 1].empty &&
      GotTodo(poll[|poll| - 2], Configure(uri))
    case Action(kind, uri) => |poll| >= 1 && GotTodo(poll[|poll| - 1], Act(kind, uri))
    case Feedback(kind, uri, id) =>
      |poll| >= 2 && poll[|poll| - 1].HandledAction? && poll[|poll| - 1].kind == kind &&
      poll[|poll| - 1].id == id && poll[|poll| - 1].response.Some? && GotAction(poll[|poll| - 2], kind, uri, id)
  }

  /** A poll request is a plain GET; any other goes where its link says. */
  predicate WellMade(target: Target, request: Request) {
    if target == Root then request.verb == Get && request.id == None
    else request == RequestOf(target, LinkOf(target), "")
  }

  /** The step rules within a poll: each looks at the one or two events before. */
  ghost predicate Follows(poll: History, e: Event) {
    var n := |poll|;
    match e
    case Sent(target, request, _) =>
      WellMade(target, request) && (IsRetry(poll, target, request) || MayStart(poll, target))
    case AuthError(_) =>
      n >= 1 && poll[n - 1].Sent? && Refused(poll[n - 1].answer) && (n >= 2 ==> !poll[n - 2].AuthError?)
    case HandledNothing => n >= 1 && NoneHandled(poll) && GotTodo(poll[n - 1], Nothing)
    case HandledConfig(_, _) =>
      n >= 1 && NoneHandled(poll) && GotConfigure(poll[n - 1])
    case HandledAction(kind, id, _) =>
      n >= 1 && NoneHandled(poll) && poll[n - 1].Sent? && poll[n - 1].target.Action? &&
      GotAction(poll[n - 1], kind, poll[n - 1].target.uri, id)
    case Delivered(_) => n >= 1 && GotFeedback(poll[n - 1]) && HasListener(poll)
    case NotDelivered =>
      n >= 1 && HasListener(poll) &&
      (poll[n - 1] == Delivered(Some(UnexpectedCode)) || FeedbackFailed(poll))
    case PollEnds => n >= 1 && IsOver(poll)
    case EndpointAsked => false
    case RunBegins => false
    case SawRunning => false
    case SawNoRequest => false
    case PollBegins => false
    case Napped => false
    case StopAsked => false
    case PollAsked => false
  }

  /** The feedback met an unexpected status, or the authorization handler threw the exception for one. */
  predicate FeedbackFailed(poll: History) {
    var n := |poll|;
    (n >= 1 && poll[n - 1].Sent? && poll[n - 1].target.Feedback? && Unexpected(poll[n - 1].answer)) ||
    (n >= 2 && poll[n - 1] == AuthError(Some(UnexpectedCode)) && poll[n - 2].Sent? && poll[n - 2].target.Feedback?)
  }

  predicate GotFeedback(e: Event) { e.Sent? && e.target.Feedback? && Succeeded(e.answer) }

  /** A poll is over when what it was asked to do is done and reported. */
  predicate IsOver(poll: History)
    requires poll != []
  {
    var last := poll[|poll| - 1];
    last.HandledNothing? || (last.HandledConfig? && last.empty) ||
    (last.Sent? && last.target.Config? && Succeeded(last.answer)) ||
    (GotFeedback(last) && !HasListener(poll)) || last == Delivered(None) || last.NotDelivered?
  }

  ghost predicate PollSafe(poll: History) {
    forall i :: 0 <= i < |poll| ==> Follows(poll[..i], poll[i])
  }

  // ---- A whole run ----------------------------------------------------------------------------

  predicate HasPolled(t: History) { exists i :: 0 <= i < |t| && t[i].PollBegins? }

  /** Whether the run has begun, and whether a stop was asked for since. */
  datatype Phase = Idle | Active | Stopped

  function PhaseOf(t: History): Phase {
    if t == [] then Idle
    else
      var e, before := t[|t| - 1], PhaseOf(t[..|t| - 1]);
      if e.RunBegins? then Active else if e.StopAsked? && before == Active then Stopped else before
  }

  /** What other threads do; all other events are the client's own. */
  predicate Asked(e: Event) { e.StopAsked? || e.PollAsked? }

  function LastOwn(t: History): Option<Event> {
    if t == [] then None
    else if Asked(t[|t| - 1]) then LastOwn(t[..|t| - 1])
    else Some(t[|t| - 1])
  }

  /** A poll was asked for since the last one ended. */
  predicate PollPending(t: History) {
    t != [] && !t[|t| - 1].PollEnds? && (t[|t| - 1].PollAsked? || PollPending(t[..|t| - 1]))
  }

  /** Naps taken since the last poll ended. */
  function Naps(t: History): nat {
    if t == [] || t[|t| - 1].PollEnds? || t[|t| - 1].PollBegins? then 0
    else Naps(t[..|t| - 1]) + (if t[|t| - 1].Napped? then 1 else 0)
  }

  function SleepTime(p: PollingData, byDefault: int): int { if p.sleepTime > 0 then p.sleepTime else byDefault }

  /** The pause a poll's answer asks for, in milliseconds. */
  function PauseOf(poll: History, byDefault: int): int {
    if poll == [] then byDefault
    else
      var e := poll[|poll| - 1];
      if Got(e, Root) && e.answer.polled.Some? then SleepTime(e.answer.polled.value, byDefault)
      else PauseOf(poll[..|poll| - 1], byDefault)
  }

  /** The handler asked to go on without a pause. */
  function SkipsPause(poll: History): bool {
    poll != [] &&
    var e := poll[|poll| - 1];
    if e.HandledAction? then e.response.Some? && e.response.value.ignoreSleep
    else if e.HandledConfig? then !e.empty && e.ignoreSleep
    else SkipsPause(poll[..|poll| - 1])
  }

  predicate Ended(poll: History) { poll != [] && poll[|poll| - 1] == PollEnds }

  /** The next poll is due: it is the first one, nobody wants a pause, or the pause has been taken. */
  predicate PauseOver(t: History, byDefault: int) {
    HasPolled(t) ==>
      var poll := PollOf(t);
      Ended(poll) && (SkipsPause(poll) || PollPending(t) || Naps(t) >= PauseOf(poll, byDefault) / 1000)
  }

  /** The step rules of a run: polls and naps begin only after the flags have been read. Between such a
      read and what it allows, other threads may act. */
  ghost predicate Justified(t: History, e: Event, byDefault: int) {
    var poll := PollOf(t);
    if InPoll(e) then HasPolled(t) && Follows(poll, e)
    else
      match e
      case EndpointAsked => t == []
      case RunBegins => !HasPolled(t)
      case SawRunning => PhaseOf(t) == Active
      case SawNoRequest => !PollPending(t) && LastOwn(t) == Some(SawRunning)
      case PollBegins => LastOwn(t) == Some(SawRunning) && PauseOver(t, byDefault)
      case Napped =>
        LastOwn(t) == Some(SawNoRequest) && Ended(poll) && !SkipsPause(poll) &&
        Naps(t) < PauseOf(poll, byDefault) / 1000
      case _ => true
  }

  ghost predicate Safe(t: History, byDefault: int) {
    forall i :: 0 <= i < |t| ==> Justified(t[..i], t[i], byDefault)
  }

  lemma SafeExtends(t: History, e: Event, byDefault: int)
    requires Safe(t, byDefault) && Justified(t, e, byDefault)
    ensures Safe(t + [e], byDefault)
  {
    hide Justified;
    var u := t + [e];
    forall i | 0 <= i < |u| ensures Justified(u[..i], u[i], byDefault) {
      assert u[..i] == t[..i];
      assert t[..|t|] == t;
    }
  }

  /** What one more event does to what is known of a history. */
  lemma {:induction false} Appending(t: History, e: Event)
    ensures var u := t + [e];
            PollOf(u) == (if e.PollBegins? then [] else if InPoll(e) then PollOf(t) + [e] else PollOf(t)) &&
            HasPolled(u) == (HasPolled(t) || e.PollBegins?) &&
            PhaseOf(u) == (if e.RunBegins? then Active
                           else if e.StopAsked? && PhaseOf(t) == Active then Stopped else PhaseOf(t)) &&
            LastOwn(u) == (if Asked(e) then LastOwn(t) else Some(e)) &&
            PollPending(u) == (!e.PollEnds? && (e.PollAsked? || PollPending(t))) &&
            Naps(u) == (if e.PollEnds? || e.PollBegins? then 0 else Naps(t) + (if e.Napped? then 1 else 0))
  {
    hide InPoll;
    var u := t + [e];
    assert u[..|u| - 1] == t;
    assert forall i :: 0 <= i < |t| ==> u[i] == t[i];
    assert u[|t|] == e;
  }

  predicate NoneForRoot(s: History) { forall i :: 0 <= i < |s| ==> s[i].Sent? ==> s[i].target != Root }

  /** Requests and reports leave alone what the handler answered. */
  lemma {:induction false} KeepsResponse(poll: History, s: History)
    requires NoneHandled(s)
    ensures ResponseOf(poll + s) == ResponseOf(poll) && SkipsPause(poll + s) == SkipsPause(poll)
    decreases |s|
  {
    if s == [] {
      assert poll + s == poll;
    } else {
      assert (poll + s)[..|poll + s| - 1] == poll + s[..|s| - 1];
      KeepsResponse(poll, s[..|s| - 1]);
    }
  }

  lemma {:induction false} KeepsPause(poll: History, s: History, byDefault: int)
    requires NoneForRoot(s)
    ensures PauseOf(poll + s, byDefault) == PauseOf(poll, byDefault)
    decreases |s|
  {
    if s == [] {
      assert poll + s == poll;
    } else {
      assert (poll + s)[..|poll + s| - 1] == poll + s[..|s| - 1];
      KeepsPause(poll, s[..|s| - 1], byDefault);
    }
  }

  // ---- What safe histories are like ------------------------------------------------------------

  lemma {:induction false} PollIsSafe(t: History, byDefault: int)
    requires Safe(t, byDefault)
    ensures PollSafe(PollOf(t))
    decreases |t|
  {
    hide Follows;
    if t != [] && !t[|t| - 1].PollBegins? {
      var before, e := t[..|t| - 1], t[|t| - 1];
      assert forall i :: 0 <= i < |before| ==> before[..i] == t[..i];
      PollIsSafe(before, byDefault);
      assert Justified(before, e, byDefault);
      if InPoll(e) {
        var poll := PollOf(before);
        assert PollOf(t) == poll + [e];
        forall i | 0 <= i < |PollOf(t)| ensures Follows(PollOf(t)[..i], PollOf(t)[i]) {
          assert PollOf(t)[..i] == poll[..i];
          assert poll[..|poll|] == poll;
        }
      }
    }
  }

  lemma EveryPollIsSafe(t: History, byDefault: int, n: nat)
    requires Safe(t, byDefault) && n <= |t|
    ensures PollSafe(PollOf(t[..n]))
  {
    hide Justified, PollSafe, PollOf;
    assert forall i :: 0 <= i < n ==> t[..n][..i] == t[..i];
    PollIsSafe(t[..n], byDefault);
  }

  /** What comes before and after a call of the authorization handler. */
  lemma AroundAuthError(poll: History, i: nat)
    requires PollSafe(poll) && i < |poll| && poll[i].AuthError?
    ensures i >= 1 && poll[i - 1].Sent? && Refused(poll[i - 1].answer)
    ensures i + 1 < |poll| ==>
              poll[i + 1].NotDelivered? ||
              (poll[i + 1].Sent? && IsRetry(poll[..i + 1], poll[i + 1].target, poll[i + 1].request))
    ensures i + 1 < |poll| && poll[i + 1].NotDelivered? ==> poll[i].threw == Some(UnexpectedCode)
  {
    hide IsRetry, WellMade, NoneHandled, HasListener;
    assert Follows(poll[..i], poll[i]);
    if i + 1 < |poll| {
      assert Follows(poll[..i + 1], poll[i + 1]);
      assert poll[..i + 1][i] == poll[i];
    }
  }

  /** Each request is repeated at most once, after a refusal and exactly one call of the handler that
      returns; the repetition goes to the same server, and only what it brought counts from then on. */
  lemma RetriedOnce(poll: History, i: nat)
    requires PollSafe(poll) && i < |poll| && poll[i].AuthError?
    ensures i >= 1 && poll[i - 1].Sent? && poll[i - 1].answer.Reply? && poll[i - 1].answer.status == 401
    ensures i + 1 < |poll| && poll[i].threw.None? ==>
              poll[i + 1].Sent? && poll[i + 1].target == poll[i - 1].target &&
              poll[i + 1].request.scheme == poll[i - 1].request.scheme &&
              poll[i + 1].request.authority == poll[i - 1].request.authority
    ensures i + 1 < |poll| && poll[i].threw.Some? ==> poll[i + 1].NotDelivered?
    ensures i + 2 < |poll| && poll[i].threw.None? ==>
              poll[i + 2].NotDelivered? || (poll[i + 1].answer.Reply? && poll[i + 1].answer.status == 200)
  {
    hide Follows;
    AroundAuthError(poll, i);
    if i + 1 < |poll| { assert poll[..i + 1][i - 1] == poll[i - 1] && poll[..i + 1][i] == poll[i]; }
    if i + 2 < |poll| && poll[i].threw.None? { AfterRetry(poll, i); }
  }

  lemma AfterRetry(poll: History, i: nat)
    requires PollSafe(poll) && i + 2 < |poll| && poll[i].AuthError? && poll[i + 1].Sent?
    ensures Succeeded(poll[i + 1].answer) || poll[i + 2].NotDelivered?
  {
    hide WellMade, NoneHandled, HasListener;
    assert Follows(poll[..i + 2], poll[i + 2]);
    assert poll[..i + 2][i] == poll[i] && poll[..i + 2][i + 1] == poll[i + 1];
  }

  /** The event at `j` fetched an action, and the one at `k`, which alone is a handler's, handled it. */
  predicate Earned(poll: History, kind: Kind, uri: URI, id: int, j: int, k: int) {
    0 <= j < k < |poll| && GotAction(poll[j], kind, uri, id) &&
    poll[k].HandledAction? && poll[k].kind == kind && poll[k].id == id && poll[k].response.Some? &&
    forall i :: 0 <= i < |poll| && IsHandled(poll[i]) ==> i == k
  }

  lemma HandledOnce(poll: History, a: nat, b: nat)
    requires PollSafe(poll) && a < b < |poll| && IsHandled(poll[a])
    ensures !IsHandled(poll[b])
  {
    assert Follows(poll[..b], poll[b]);
    assert poll[..b][a] == poll[a];
    assert !NoneHandled(poll[..b]);
  }

  /** A feedback request repeats a refused one, or comes right after the fetch and the handler. */
  lemma BeforeFeedback(poll: History, n: nat)
    requires PollSafe(poll) && n < |poll| && poll[n].Sent? && poll[n].target.Feedback?
    ensures WellMade(poll[n].target, poll[n].request) && n >= 2
    ensures (poll[n - 2].Sent? && poll[n - 2].target == poll[n].target) ||
            (poll[n - 1].HandledAction? && poll[n - 1].kind == poll[n].target.kind &&
             poll[n - 1].id == poll[n].target.id && poll[n - 1].response.Some? &&
             GotAction(poll[n - 2], poll[n].target.kind, poll[n].target.uri, poll[n].target.id))
  {
    assert Follows(poll[..n], poll[n]);
    if n >= 2 { assert poll[..n][n - 2] == poll[n - 2] && poll[..n][n - 1] == poll[n - 1]; }
  }

  /** Where feedback goes: the text after the last slash is `feedback`, and what stands before that slash is
      the link's path without one slash at its end. */
  lemma FeedbackPathIs(path: string)
    ensures var front := if path != "" && path[|path| - 1] == '/' then path[..|path| - 1] else path;
            FormatFeedbackPath(path) == front + "/" + "feedback" && '/' !in "feedback"
  {
    if path != "" && path[|path| - 1] == '/' { assert path == path[..|path| - 1] + "/"; }
  }

  /** Every feedback follows, in the same poll, a successful fetch of that action and the one handler call
      there is, which was about that action and returned a response. It is posted below the action's own
      link, and carries the action's id, as a decimal numeral, unless that is negative. */
  lemma FeedbackIsEarned(poll: History, n: nat) returns (j: int, k: int)
    requires PollSafe(poll) && n < |poll| && poll[n].Sent? && poll[n].target.Feedback?
    ensures var f, uri := poll[n], poll[n].target.uri;
            && Earned(poll, f.target.kind, uri, f.target.id, j, k) && k < n
            && f.request.verb == Post && f.request.scheme == uri.scheme && f.request.authority == uri.authority
            && f.request.path ==
               (if uri.path != "" && uri.path[|uri.path| - 1] == '/' then uri.path + "feedback"
                else uri.path + "/feedback")
            && f.request.id == IdMember(f.target.id)
    decreases n
  {
    hide Follows, PollSafe, GotAction, IdMember, WellMade;
    BeforeFeedback(poll, n);
    FeedbackRequest(poll[n].target, poll[n].request);
    if poll[n - 2].Sent? && poll[n - 2].target == poll[n].target {
      j, k := FeedbackIsEarned(poll, n - 2);
    } else {
      j, k := n - 2, n - 1;
      OnlyHandled(poll, k);
    }
  }

  lemma FeedbackRequest(target: Target, request: Request)
    requires target.Feedback? && WellMade(target, request)
    ensures var uri := target.uri;
            request.verb == Post && request.scheme == uri.scheme && request.authority == uri.authority &&
            request.id == IdMember(target.id) &&
            request.path ==
            (if uri.path != "" && uri.path[|uri.path| - 1] == '/' then uri.path + "feedback"
             else uri.path + "/feedback")
  {
    hide IdMember;
    assert "/" + "feedback" == "/feedback";
    var path := target.uri.path;
    assert path + "/" + "feedback" == path + ("/" + "feedback");
  }

  /** A request other than feedback repeats a refused one, or comes right after what asks for it. */
  lemma BeforeRequest(poll: History, n: nat)
    requires PollSafe(poll) && n < |poll| && poll[n].Sent? && poll[n].target != Root
    ensures WellMade(poll[n].target, poll[n].request) && n >= 1
    ensures (n >= 2 && poll[n - 2].Sent? && poll[n - 2].target == poll[n].target) ||
            (poll[n].target.Config? && n >= 2 && poll[n - 1].HandledConfig? && !poll[n - 1].empty &&
             GotTodo(poll[n - 2], Configure(poll[n].target.uri))) ||
            (poll[n].target.Action? && GotTodo(poll[n - 1], Act(poll[n].target.kind, poll[n].target.uri))) ||
            poll[n].target.Feedback?
  {
    assert Follows(poll[..n], poll[n]);
    if n >= 1 { assert poll[..n][n - 1] == poll[n - 1]; }
    if n >= 2 { assert poll[..n][n - 2] == poll[n - 2]; }
  }

  /** Configuration data is put, to exactly the link of the server's own answer, only when the answer
      asked for it and the handler gave some; an action is fetched from exactly the link of the answer.
      Neither request carries an id. */
  lemma RequestIsEarned(poll: History, n: nat) returns (j: nat)
    requires PollSafe(poll) && n < |poll| && poll[n].Sent? && !poll[n].target.Feedback?
    ensures var target, request := poll[n].target, poll[n].request;
            && j <= n && request.id == None
            && (target == Root ==> request.verb == Get)
            && (target.Config? ==>
                  j + 1 < n && GotTodo(poll[j], Configure(target.uri)) &&
                  poll[j + 1].HandledConfig? && !poll[j + 1].empty &&
                  request.verb == Put && request.scheme == target.uri.scheme &&
                  request.authority == target.uri.authority && request.path == target.uri.path)
            && (target.Action? ==>
                  j < n && GotTodo(poll[j], Act(target.kind, target.uri)) &&
                  request.verb == Get && request.scheme == target.uri.scheme &&
                  request.authority == target.uri.authority && request.path == target.uri.path)
    decreases n
  {
    hide Follows, GotTodo;
    j := n;
    if poll[n].target == Root {
      PlainRequest(poll, n);
    } else {
      BeforeRequest(poll, n);
      if n >= 2 && poll[n - 2].Sent? && poll[n - 2].target == poll[n].target {
        j := RequestIsEarned(poll, n - 2);
      } else {
        j := if poll[n].target.Config? then n - 2 else n - 1;
      }
    }
  }

  lemma PlainRequest(poll: History, n: nat)
    requires PollSafe(poll) && n < |poll| && poll[n].Sent? && poll[n].target == Root
    ensures poll[n].request.verb == Get && poll[n].request.id == None
  {
    assert Follows(poll[..n], poll[n]);
  }

  /** The id in a feedback body is the action's exactly when that is not negative. */
  lemma IdMemberIsId(actionId: int)
    ensures IdMember(actionId).Some? <==> actionId >= 0
    ensures actionId >= 0 ==>
              N.AllDigits(IdMember(actionId).value, 10) && N.Value(IdMember(actionId).value, 10) == actionId
  {
    if actionId >= 0 { N.DigitsRead(actionId, 10); }
  }

  /** The response in force does not change once the action is handled. */
  lemma {:induction false} ResponseStays(poll: History, k: nat, n: nat)
    requires k < n <= |poll| && poll[k].HandledAction?
    requires forall i :: k < i < n ==> !poll[i].HandledAction?
    ensures ResponseOf(poll[..n]) == poll[k].response
    decreases n
  {
    assert poll[..n][..n - 1] == poll[..n - 1];
    if k < n - 1 { ResponseStays(poll, k, n - 1); }
  }

  /** Success is reported exactly when the feedback succeeded and somebody listens: a report of success
      follows such a feedback at once, and after such a feedback nothing else comes first. */
  lemma SuccessIsReported(poll: History, n: nat)
    requires PollSafe(poll) && n < |poll|
    ensures poll[n].Delivered? ==> n >= 1 && GotFeedback(poll[n - 1]) && HasListener(poll[..n])
    ensures GotFeedback(poll[n]) && n + 1 < |poll| ==>
              if HasListener(poll[..n + 1]) then poll[n + 1].Delivered? else poll[n + 1].PollEnds?
  {
    assert Follows(poll[..n], poll[n]);
    if n + 1 < |poll| {
      assert Follows(poll[..n + 1], poll[n + 1]);
      assert poll[..n + 1][n] == poll[n];
    }
  }

  /** After a report only the end of the poll can come, or the error report that the listener's own
      exception brings about. */
  lemma AfterReport(poll: History, n: nat)
    requires PollSafe(poll) && n + 1 < |poll| && (IsReport(poll[n]) || poll[n].PollEnds?)
    ensures !poll[n].PollEnds?
    ensures poll[n + 1].PollEnds? || (poll[n] == Delivered(Some(UnexpectedCode)) && poll[n + 1].NotDelivered?)
  {
    assert Follows(poll[..n + 1], poll[n + 1]);
    assert poll[..n + 1][n] == poll[n];
  }

  /** At most one of success and error is reported in a poll, unless the success listener itself throws
      the exception that stands for an unexpected status. */
  lemma OneReport(poll: History, i: nat, j: nat)
    requires PollSafe(poll) && i < j < |poll| && IsReport(poll[i]) && IsReport(poll[j])
    ensures poll[i] == Delivered(Some(UnexpectedCode)) && j == i + 1 && poll[j].NotDelivered?
  {
    AfterReport(poll, i);
    if j > i + 1 {
      AfterReport(poll, i + 1);
      if j > i + 2 { AfterReport(poll, i + 2); }
    }
  }

  /** In a poll that came to its end, the response in force at a report or a feedback is the poll's. */
  lemma ListenerIsThePolls(poll: History, n: nat, m: nat)
    requires PollSafe(poll) && n < m <= |poll| && poll[n].Sent? && poll[n].target.Feedback?
    ensures HasListener(poll[..m]) == HasListener(poll)
  {
    hide PollSafe, ResponseOf;
    var j, k := FeedbackIsEarned(poll, n);
    assert poll == poll[..m] + poll[m..];
    forall i | 0 <= i < |poll| - m ensures !IsHandled(poll[m..][i]) { assert poll[m..][i] == poll[m + i]; }
    KeepsResponse(poll[..m], poll[m..]);
  }

  /** Success is reported, in a poll that came to its end, exactly when a feedback succeeded and somebody
      listens. */
  lemma SuccessReportedExactly(poll: History)
    requires PollSafe(poll) && Ended(poll)
    ensures (exists n :: 0 <= n < |poll| && poll[n].Delivered?) <==>
            HasListener(poll) && exists n :: 0 <= n < |poll| && GotFeedback(poll[n])
  {
    hide PollSafe, HasListener;
    if n :| 0 <= n < |poll| && poll[n].Delivered? {
      SuccessIsReported(poll, n);
      ListenerIsThePolls(poll, n - 1, n);
    }
    if n :| 0 <= n < |poll| && GotFeedback(poll[n]) {
      SuccessIsReported(poll, n);
      ListenerIsThePolls(poll, n, n + 1);
    }
  }

  /** A feedback that failed is followed by the error report, if by anything. */
  lemma AfterFailure(poll: History, n: nat)
    requires PollSafe(poll) && n < |poll| && FeedbackFailed(poll[..n])
    ensures poll[n].NotDelivered?
  {
    hide WellMade, NoneHandled, HasListener;
    assert Follows(poll[..n], poll[n]);
  }

  /** The event at `n` makes the client report an error. */
  predicate CausesError(poll: History, n: nat)
    requires n < |poll|
  {
    FeedbackFailed(poll[..n + 1]) || poll[n] == Delivered(Some(UnexpectedCode))
  }

  /** An error is reported, in a poll that came to its end, exactly when the feedback met a status that is
      neither success nor a refusal, or a callback threw the exception that stands for one. Refused and
      broken feedback requests are never reported: they end the run. */
  lemma ErrorReportedExactly(poll: History)
    requires PollSafe(poll) && Ended(poll)
    ensures (exists n :: 0 <= n < |poll| && poll[n].NotDelivered?) <==>
            exists n :: 0 <= n < |poll| && CausesError(poll, n)
  {
    hide PollSafe, HasListener, Follows;
    if n :| 0 <= n < |poll| && poll[n].NotDelivered? {
      BeforeError(poll, n);
      assert CausesError(poll, n - 1);
    }
    if n :| 0 <= n < |poll| && CausesError(poll, n) {
      assert poll[..n + 1][n] == poll[n];
      if FeedbackFailed(poll[..n + 1]) {
        AfterFailure(poll, n + 1);
      } else {
        AfterThrowingListener(poll, n);
      }
    }
  }

  lemma BeforeError(poll: History, n: nat)
    requires PollSafe(poll) && n < |poll| && poll[n].NotDelivered?
    ensures n >= 1 && (FeedbackFailed(poll[..n]) || poll[n - 1] == Delivered(Some(UnexpectedCode)))
  {
    assert Follows(poll[..n], poll[n]);
  }

  lemma AfterThrowingListener(poll: History, n: nat)
    requires PollSafe(poll) && Ended(poll) && n < |poll| && poll[n] == Delivered(Some(UnexpectedCode))
    ensures n + 1 < |poll| && poll[n + 1].NotDelivered?
  {
    hide WellMade, NoneHandled, HasListener;
    assert Follows(poll[..n + 1], poll[n + 1]);
    assert poll[..n + 1][n] == poll[n];
  }

  predicate TwoReports(poll: History) {
    exists i, j :: 0 <= i < j < |poll| && IsReport(poll[i]) && IsReport(poll[j])
  }

  /** In a poll that came to its end both success and error are reported exactly when the success listener
      itself threw the exception that stands for an unexpected status. */
  lemma TwoReportsExactly(poll: History)
    requires PollSafe(poll) && Ended(poll)
    ensures TwoReports(poll) <==> exists n :: 0 <= n < |poll| && poll[n] == Delivered(Some(UnexpectedCode))
  {
    hide PollSafe;
    if TwoReports(poll) {
      var i, j :| 0 <= i < j < |poll| && IsReport(poll[i]) && IsReport(poll[j]);
      OneReport(poll, i, j);
    }
    if n :| 0 <= n < |poll| && poll[n] == Delivered(Some(UnexpectedCode)) {
      AfterThrowingListener(poll, n);
      assert IsReport(poll[n]) && IsReport(poll[n + 1]);
    }
  }

  lemma GoesOn(t: History, e: Event, byDefault: int)
    requires Safe(t, byDefault) && HasPolled(t) && InPoll(e) && Follows(PollOf(t), e)
    ensures Safe(t + [e], byDefault) && HasPolled(t + [e]) && PollOf(t + [e]) == PollOf(t) + [e]
  {
    hide Safe, Follows, HasPolled, PollOf;
    SafeExtends(t, e, byDefault);
    Appending(t, e);
  }

  lemma {:induction false} FirstPollBegins(byDefault: int) returns (t: History)
    ensures Safe(t, byDefault) && HasPolled(t) && PollOf(t) == []
  {
    FirstSteps([], byDefault);
    hide Follows, PauseOver, PollOf, HasPolled, PhaseOf, LastOwn, PollPending, Naps, Safe, Justified;
    var begun := [] + [RunBegins];
    SafeExtends([], RunBegins, byDefault);
    Appending([], RunBegins);
    FirstSteps(begun, byDefault);
    SafeExtends(begun, SawRunning, byDefault);
    Appending(begun, SawRunning);
    FirstSteps(begun + [SawRunning], byDefault);
    SafeExtends(begun + [SawRunning], PollBegins, byDefault);
    Appending(begun + [SawRunning], PollBegins);
    t := begun + [SawRunning] + [PollBegins];
  }

  lemma {:induction false} FirstSteps(t: History, byDefault: int)
    ensures Safe([], byDefault) && !HasPolled([])
    ensures Justified(t, StopAsked, byDefault) && (!HasPolled(t) ==> Justified(t, RunBegins, byDefault))
    ensures PhaseOf(t) == Active ==> Justified(t, SawRunning, byDefault)
    ensures !HasPolled(t) && LastOwn(t) == Some(SawRunning) ==> Justified(t, PollBegins, byDefault)
  {
    hide Follows, PollOf, PhaseOf, LastOwn, PollPending, Naps;
  }

  /** Every sequence of poll events that keeps the rules for polls is the poll of some run. */
  lemma {:induction false} PollHappens(poll: History, byDefault: int) returns (t: History)
    requires PollSafe(poll) && forall i :: 0 <= i < |poll| ==> InPoll(poll[i])
    ensures Safe(t, byDefault) && HasPolled(t) && PollOf(t) == poll
    decreases |poll|
  {
    hide Follows, InPoll, Safe, PollOf, HasPolled;
    if poll == [] {
      t := FirstPollBegins(byDefault);
    } else {
      var before, e := poll[..|poll| - 1], poll[|poll| - 1];
      assert forall i :: 0 <= i < |before| ==> before[..i] == poll[..i] && before[i] == poll[i];
      var start := PollHappens(before, byDefault);
      assert Follows(before, e);
      GoesOn(start, e, byDefault);
      t := start + [e];
    }
  }

  /** A poll that fetches the action `id`, for whose success the listener throws. */
  function Fetching(kind: Kind, uri: URI, id: int): History {
    [Sent(Root, RequestOf(Root, uri, ""), Reply(HTTP_OK, Some(PollingData(0, Act(kind, uri))), None)),
     Sent(Action(kind, uri), RequestOf(Action(kind, uri), uri, ""), Reply(HTTP_OK, None, Some(id))),
     HandledAction(kind, id, Some(Response(true, false)))]
  }

  function Reporting(kind: Kind, uri: URI, id: int): History {
    [Sent(Feedback(kind, uri, id), RequestOf(Feedback(kind, uri, id), uri, ""), Reply(HTTP_OK, None, None)),
     Delivered(Some(UnexpectedCode)), NotDelivered, PollEnds]
  }

  lemma ThrowingIsSafe(kind: Kind, uri: URI, id: int)
    ensures PollSafe(Fetching(kind, uri, id) + Reporting(kind, uri, id))
  {
    FetchingIsSafe(kind, uri, id);
    ReportingFollows(kind, uri, id);
    hide Follows, Fetching, Reporting;
    var fetching, reporting := Fetching(kind, uri, id), Reporting(kind, uri, id);
    var poll := fetching + reporting;
    forall i | 0 <= i < |poll| ensures Follows(poll[..i], poll[i]) {
      if i < |fetching| {
        assert poll[..i] == fetching[..i];
      } else {
        assert poll[..i] == fetching + reporting[..i - |fetching|];
      }
    }
  }

  lemma FetchingIsSafe(kind: Kind, uri: URI, id: int)
    ensures PollSafe(Fetching(kind, uri, id))
  {
    hide ResponseOf;
  }

  lemma ReportingFollows(kind: Kind, uri: URI, id: int)
    ensures var fetching, reporting := Fetching(kind, uri, id), Reporting(kind, uri, id);
            forall i :: 0 <= i < |reporting| ==> Follows(fetching + reporting[..i], reporting[i])
  {
    var fetching, reporting := Fetching(kind, uri, id), Reporting(kind, uri, id);
    assert ResponseOf(fetching) == Some(Response(true, false));
    KeepsResponse(fetching, reporting[..1]);
    KeepsResponse(fetching, reporting[..2]);
    hide ResponseOf;
    assert Follows(fetching + reporting[..0], reporting[0]);
    assert Follows(fetching + reporting[..1], reporting[1]);
    assert Follows(fetching + reporting[..2], reporting[2]);
    assert Follows(fetching + reporting[..3], reporting[3]);
  }

  /** Both are reported in some run that keeps the rules, whatever the action. */
  lemma {:induction false} SomeRunReportsTwice(kind: Kind, uri: URI, id: int, byDefault: int) returns (t: History)
    ensures Safe(t, byDefault) && Ended(PollOf(t)) && TwoReports(PollOf(t))
    ensures PollOf(t) == Fetching(kind, uri, id) + Reporting(kind, uri, id)
  {
    var poll := Fetching(kind, uri, id) + Reporting(kind, uri, id);
    ThrowingIsSafe(kind, uri, id);
    assert forall i :: 0 <= i < |poll| ==> InPoll(poll[i]);
    hide Follows, InPoll, Safe, PollOf, HasPolled;
    t := PollHappens(poll, byDefault);
    assert IsReport(poll[4]) && IsReport(poll[5]);
  }

  lemma OnlyHandled(poll: History, k: nat)
    requires PollSafe(poll) && k < |poll| && IsHandled(poll[k])
    ensures forall i :: 0 <= i < |poll| && IsHandled(poll[i]) ==> i == k
  {
    hide PollSafe;
    forall i | 0 <= i < |poll| && i != k ensures !IsHandled(poll[i]) {
      if IsHandled(poll[i]) && i < k { HandledOnce(poll, i, k); }
      if k < i { HandledOnce(poll, k, i); }
    }
  }

  lemma OverAtEnd(poll: History)
    requires PollSafe(poll) && Ended(poll)
    ensures |poll| >= 2 && IsOver(poll[..|poll| - 1])
    ensures poll[..|poll| - 1][|poll| - 2] == poll[|poll| - 2]
  {
    assert Follows(poll[..|poll| - 1], poll[|poll| - 1]);
  }

  /** The feedback request a poll ends with, reports and authorization left out. */
  lemma LastFeedback(poll: History, m: nat) returns (n: nat)
    requires PollSafe(poll) && m < |poll|
    requires GotFeedback(poll[m]) || IsReport(poll[m])
    ensures n <= m && poll[n].Sent? && poll[n].target.Feedback?
    decreases m
  {
    hide PollSafe, HasListener;
    if GotFeedback(poll[m]) {
      n := m;
    } else if poll[m].Delivered? {
      SuccessIsReported(poll, m);
      n := m - 1;
    } else {
      BeforeError(poll, m);
      if poll[m - 1].Delivered? {
        n := LastFeedback(poll, m - 1);
      } else if poll[m - 1].Sent? {
        n := m - 1;
      } else {
        n := m - 2;
      }
    }
  }

  /** A poll that comes to its end has called the handler once and done what that asked for: configuration
      data, unless empty, was accepted at the link of the server's answer, and an action was answered with
      a response and a feedback. */
  lemma EndedMeansDone(poll: History) returns (k: nat, n: nat)
    requires PollSafe(poll) && Ended(poll)
    ensures k <= n < |poll| && IsHandled(poll[k])
    ensures forall i :: 0 <= i < |poll| && IsHandled(poll[i]) ==> i == k
    ensures poll[k].HandledConfig? && !poll[k].empty ==>
              poll[n].Sent? && poll[n].target.Config? && Succeeded(poll[n].answer) &&
              k >= 1 && GotTodo(poll[k - 1], Configure(poll[n].target.uri))
    ensures poll[k].HandledAction? ==>
              poll[k].response.Some? && poll[n].Sent? && poll[n].target.Feedback? &&
              poll[n].target.kind == poll[k].kind && poll[n].target.id == poll[k].id
  {
    hide PollSafe, HasListener, GotTodo, GotAction;
    OverAtEnd(poll);
    var m := |poll| - 2;
    if IsHandled(poll[m]) {
      k, n := m, m;
    } else if poll[m].Sent? && poll[m].target.Config? {
      n := m;
      k := RequestIsEarned(poll, n);
      k := k + 1;
    } else {
      n := LastFeedback(poll, m);
      var j;
      j, k := FeedbackIsEarned(poll, n);
    }
    OnlyHandled(poll, k);
  }

  /** Between two polls there are at most as many one-second naps as the pause has whole seconds, and none
      when the handler asked to go on. */
  lemma {:induction false} NapsBounded(t: History, byDefault: int)
    requires Safe(t, byDefault)
    ensures Naps(t) > 0 ==>
              Ended(PollOf(t)) && !SkipsPause(PollOf(t)) && Naps(t) <= PauseOf(PollOf(t), byDefault) / 1000
    decreases |t|
  {
    if t != [] && !t[|t| - 1].PollBegins? && !t[|t| - 1].PollEnds? {
      var before, e := t[..|t| - 1], t[|t| - 1];
      assert forall i :: 0 <= i < |before| ==> before[..i] == t[..i];
      NapsBounded(before, byDefault);
      assert Justified(before, e, byDefault);
      if InPoll(e) { NothingAfterEnd(PollOf(before), e); }
    }
  }

  /** The pause is what the poll's answer asks for, the default unless that is positive. */
  lemma {:induction false} PauseIs(poll: History, n: nat, byDefault: int)
    requires n < |poll| && Got(poll[n], Root) && poll[n].answer.polled.Some?
    requires forall i :: n < i < |poll| ==> !(Got(poll[i], Root) && poll[i].answer.polled.Some?)
    ensures var asked := poll[n].answer.polled.value.sleepTime;
            PauseOf(poll, byDefault) == if asked > 0 then asked else byDefault
    decreases |poll|
  {
    if n < |poll| - 1 { PauseIs(poll[..|poll| - 1], n, byDefault); }
  }

  /** The pause is left out exactly when the handler's one answer says so: the response to an action, or
      configuration data that is not empty. */
  lemma {:induction false} SkipIs(poll: History, k: nat)
    requires k < |poll| && IsHandled(poll[k]) && forall i :: k < i < |poll| ==> !IsHandled(poll[i])
    requires forall i :: 0 <= i < k ==> !IsHandled(poll[i])
    ensures SkipsPause(poll) <==>
            (poll[k].HandledAction? && poll[k].response.Some? && poll[k].response.value.ignoreSleep) ||
            (poll[k].HandledConfig? && !poll[k].empty && poll[k].ignoreSleep)
    decreases |poll|
  {
    if k < |poll| - 1 {
      SkipIs(poll[..|poll| - 1], k);
    } else if poll[k].HandledNothing? {
      var before := poll[..|poll| - 1];
      KeepsResponse([], before);
      assert [] + before == before;
    }
  }

  /** Unless the handler or another thread cuts it short, the pause before a poll is taken in full: as many
      one-second naps as it has whole seconds, no more and no fewer. */
  lemma {:induction false} PauseIsTaken(t: History, byDefault: int, m: nat)
    requires Safe(t, byDefault) && m < |t| && t[m].PollBegins? && HasPolled(t[..m])
    ensures var poll, pause := PollOf(t[..m]), PauseOf(PollOf(t[..m]), byDefault);
            Ended(poll) &&
            (!SkipsPause(poll) && !PollPending(t[..m]) ==>
               Naps(t[..m]) == if pause >= 1000 then pause / 1000 else 0)
  {
    assert Justified(t[..m], t[m], byDefault);
    assert forall i :: 0 <= i < m ==> t[..m][..i] == t[..i];
    assert Safe(t[..m], byDefault);
    hide Safe, Justified, PauseOf, SkipsPause, PollOf, Naps, PollPending;
    NapsBounded(t[..m], byDefault);
  }

  lemma NothingAfterEnd(poll: History, e: Event)
    requires Follows(poll, e)
    ensures !Ended(poll)
  {
  }

  lemma {:induction false} StopStays(t: History, n: nat)
    requires n < |t| && t[n].StopAsked? && forall i :: n < i < |t| ==> !t[i].RunBegins?
    ensures PhaseOf(t) != Active
    decreases |t|
  {
    if n < |t| - 1 { StopStays(t[..|t| - 1], n); }
  }

  lemma {:induction false} RequestStays(t: History, n: nat)
    requires n < |t| && t[n].PollAsked? && forall i :: n < i < |t| ==> !t[i].PollEnds?
    ensures PollPending(t)
    decreases |t|
  {
    if n < |t| - 1 { RequestStays(t[..|t| - 1], n); }
  }

  lemma {:induction false} OwnAt(t: History, e: Event) returns (k: nat)
    requires LastOwn(t) == Some(e)
    ensures k < |t| && t[k] == e && forall i :: k < i < |t| ==> Asked(t[i])
    decreases |t|
  {
    if Asked(t[|t| - 1]) { k := OwnAt(t[..|t| - 1], e); } else { k := |t| - 1; }
  }

  predicate Begins(e: Event) { e.PollBegins? || e.Napped? }

  /** What each event says of the flags that were read. */
  lemma {:induction false} FlagsAt(t: History, byDefault: int, m: nat)
    requires Safe(t, byDefault) && m < |t|
    ensures t[m].SawRunning? ==> PhaseOf(t[..m]) == Active
    ensures t[m].SawNoRequest? ==> !PollPending(t[..m])
    ensures t[m].SawNoRequest? || t[m].PollBegins? ==> LastOwn(t[..m]) == Some(SawRunning)
    ensures t[m].Napped? ==> LastOwn(t[..m]) == Some(SawNoRequest)
  {
    assert Justified(t[..m], t[m], byDefault);
    hide PauseOver, PhaseOf, LastOwn, PollOf, PollPending, HasPolled, Follows, Naps, PauseOf, SkipsPause, Safe;
  }

  /** A nap or poll that begins after a stop was asked for had its flag read before: of its own the client
      does nothing in between, but for reading the other flag. */
  lemma {:induction false} BeginsAfterStop(t: History, byDefault: int, n: nat, m: nat)
    requires Safe(t, byDefault) && n < m < |t| && Begins(t[m])
    requires t[n].StopAsked? && forall i :: n < i < m ==> !t[i].RunBegins?
    ensures forall i :: n < i < m ==> Asked(t[i]) || t[i].SawNoRequest?
  {
    hide Safe, PhaseOf, LastOwn;
    FlagsAt(t, byDefault, m);
    var k;
    if t[m].PollBegins? {
      k := OwnAt(t[..m], SawRunning);
    } else {
      var read := OwnAt(t[..m], SawNoRequest);
      FlagsAt(t, byDefault, read);
      k := OwnAt(t[..read], SawRunning);
    }
    FlagsAt(t, byDefault, k);
    if k > n { StopStays(t[..k], n); }
  }

  /** So with a nap that begins after a poll was asked for, before the next poll has ended. */
  lemma {:induction false} NapsAfterRequest(t: History, byDefault: int, n: nat, m: nat)
    requires Safe(t, byDefault) && n < m < |t| && t[m].Napped?
    requires t[n].PollAsked? && forall i :: n < i < m ==> !t[i].PollEnds?
    ensures forall i :: n < i < m ==> Asked(t[i])
  {
    hide Safe, PollPending, LastOwn;
    FlagsAt(t, byDefault, m);
    var k := OwnAt(t[..m], SawNoRequest);
    FlagsAt(t, byDefault, k);
    if k > n { RequestStays(t[..k], n); }
  }

  /** One does begin in some run: the stop comes between the read of the flag and the poll. */
  lemma {:induction false} LatePollBegins(byDefault: int) returns (t: History)
    ensures Safe(t, byDefault) && t == [RunBegins, SawRunning, StopAsked, PollBegins]
  {
    FirstSteps([], byDefault);
    hide Follows, PauseOver, PollOf, HasPolled, PhaseOf, LastOwn, PollPending, Naps, Safe, Justified;
    var t1 := [] + [RunBegins];
    var t2 := t1 + [SawRunning];
    var t3 := t2 + [StopAsked];
    Appending([], RunBegins);
    Appending(t1, SawRunning);
    Appending(t2, StopAsked);
    SafeExtends([], RunBegins, byDefault);
    FirstSteps(t1, byDefault);
    SafeExtends(t1, SawRunning, byDefault);
    FirstSteps(t2, byDefault);
    SafeExtends(t2, StopAsked, byDefault);
    FirstSteps(t3, byDefault);
    SafeExtends(t3, PollBegins, byDefault);
    t := t3 + [PollBegins];
  }

  /** Once a stop is asked for at most one poll or nap begins any more in that run; once a poll is asked
      for at most one nap begins before the next poll has ended. It is one whose flags had been read. */
  lemma {:induction false} AskingEndsThePause(t: History, byDefault: int, n: nat, l: nat, m: nat)
    requires Safe(t, byDefault) && n < l < m < |t|
    ensures t[n].StopAsked? && (forall i :: n < i < m ==> !t[i].RunBegins?) ==> !(Begins(t[l]) && Begins(t[m]))
    ensures t[n].PollAsked? && (forall i :: n < i < m ==> !t[i].PollEnds?) ==> !(t[l].Napped? && t[m].Napped?)
  {
    hide Safe;
    if t[n].StopAsked? && (forall i :: n < i < m ==> !t[i].RunBegins?) && Begins(t[m]) {
      BeginsAfterStop(t, byDefault, n, m);
    }
    if t[n].PollAsked? && (forall i :: n < i < m ==> !t[i].PollEnds?) && t[m].Napped? {
      NapsAfterRequest(t, byDefault, n, m);
    }
  }
}
