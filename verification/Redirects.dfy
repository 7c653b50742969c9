/** The recursion `send` -> `handle_request` -> `redirect` / digest retry -> `send`, against any server.
    A server is its replies in the order the requests reach it, so it may depend on all that went before. */
module Redirects {
  import opened Text

  const REDIRECT_MAX_COUNT := 20
  const AUTHORIZATION_MAX_COUNT := 5

  /** `redirect_count_` and `authorization_count_` of a request. */
  datatype Counts = Counts(redirect: nat, authorization: nat)

  const NEW_REQUEST := Counts(REDIRECT_MAX_COUNT, 0)

  /** One reply: whether a connection was made and a response read, its status, whether its location can
      be followed, and whether it holds a challenge the client has credentials for. */
  datatype Reply = Reply(connects: bool, ok: bool, status: int, location: bool, challenge: bool)

  type Server = nat -> Reply

  /** What a `send` gives back: its return value, the response, the request it leaves behind, how many
      requests were made in all and how deep the sends nested below it. */
  datatype Outcome = Outcome(ret: bool, reply: Reply, request: Counts, made: nat, depth: nat)

  function Budget(r: Counts): nat
    requires r.authorization <= AUTHORIZATION_MAX_COUNT
  {
    r.redirect + (AUTHORIZATION_MAX_COUNT - r.authorization)
  }

  function Pow2(n: nat): (r: nat)
    ensures r >= 1
  {
    if n == 0 then 1 else 2 * Pow2(n - 1)
  }

  function Max(a: nat, b: nat): nat { if a < b then b else a }

  predicate IsRedirect(reply: Reply) { 300 < reply.status < 400 }

  predicate IsChallenge(reply: Reply) { (reply.status == 401 || reply.status == 407) && reply.challenge }

  /** The redirect half of `handle_request`: `first` is the reply just read, `made` requests so far.
      The count is tested before it is taken down, so it cannot wrap. */
  function Redirected(r: Counts, first: Reply, made: nat, follow: bool, server: Server): (o: Outcome)
    requires r.authorization <= AUTHORIZATION_MAX_COUNT
    ensures o.request.authorization == r.authorization
    ensures o.request == r || o.request.redirect < r.redirect
    ensures o.depth <= r.redirect + (AUTHORIZATION_MAX_COUNT - r.authorization)
    ensures o.depth > 0 ==> r.redirect > 0
    ensures made <= o.made
    decreases Budget(r), 0
  {
    if !(IsRedirect(first) && follow) then Outcome(true, first, r, made, 0)
    else if r.redirect == 0 || !first.location then Outcome(false, first, r, made, 0)
    else
      var inner := Send(r.(redirect := r.redirect - 1), made, follow, server);
      if inner.ret then Outcome(true, inner.reply, inner.request, inner.made, inner.depth + 1)
      else Outcome(false, first, r, inner.made, inner.depth + 1)
  }

  /** The digest half, on the request and response the redirect half leaves. */
  function Authorized(before: Outcome, follow: bool, server: Server): (o: Outcome)
    requires before.request.authorization <= AUTHORIZATION_MAX_COUNT
    ensures o.request == before.request
    ensures o.depth <= Max(before.depth, Budget(before.request))
    ensures before.made <= o.made
    decreases Budget(before.request), 1
  {
    var r := before.request;
    if !(IsChallenge(before.reply) && r.authorization < AUTHORIZATION_MAX_COUNT) then before
    else
      var inner := Send(r.(authorization := r.authorization + 1), before.made, follow, server);
      Outcome(inner.ret, if inner.ret then inner.reply else before.reply, r, inner.made,
              Max(before.depth, inner.depth + 1))
  }

  /** `send`. Its termination is the strict drop of `Budget` at each nested send, also when one frame
      makes both a redirect send and a digest send. */
  function Send(r: Counts, made: nat, follow: bool, server: Server): (o: Outcome)
    requires r.authorization <= AUTHORIZATION_MAX_COUNT
    ensures o.request.authorization == r.authorization && o.request.redirect <= r.redirect
    ensures o.depth <= Budget(r)
    ensures made < o.made
    decreases Budget(r), 2
  {
    var reply := server(made);
    if !reply.connects || !reply.ok then Outcome(false, reply, r, made + 1, 0)
    else Authorized(Redirected(r, reply, made + 1, follow, server), follow, server)
  }

  /** No server keeps a new request going: at most 25 nested sends, and a bounded number of requests. */
  lemma {:induction false} RecursionEnds(follow: bool, server: Server)
    ensures var o := Send(NEW_REQUEST, 0, follow, server);
            o.depth <= 25 && o.made < Pow2(26)
  {
    RequestsBounded(NEW_REQUEST, 0, follow, server);
  }

  lemma {:induction false} Pow2Monotone(a: nat, b: nat)
    requires a <= b
    ensures Pow2(a) <= Pow2(b)
  {
    if a < b { Pow2Monotone(a, b - 1); }
  }

  lemma Pow2Grows(n: nat)
    ensures Pow2(n + 1) == 2 * Pow2(n)
  {
  }

  lemma {:induction false} RedirectBounded(r: Counts, first: Reply, made: nat, follow: bool, server: Server)
    requires r.authorization <= AUTHORIZATION_MAX_COUNT
    ensures Redirected(r, first, made, follow, server).made < made + Pow2(Budget(r))
    decreases Budget(r), 0
  {
    hide Send, Pow2;
    Pow2Grows(Budget(r));
    if IsRedirect(first) && follow && r.redirect > 0 && first.location {
      RequestsBounded(r.(redirect := r.redirect - 1), made, follow, server);
    }
  }

  lemma {:induction false} DigestBounded(before: Outcome, follow: bool, server: Server)
    requires before.request.authorization <= AUTHORIZATION_MAX_COUNT
    ensures Authorized(before, follow, server).made < before.made + Pow2(Budget(before.request))
    decreases Budget(before.request), 1
  {
    var r := before.request;
    if IsChallenge(before.reply) && r.authorization < AUTHORIZATION_MAX_COUNT {
      RequestsBounded(r.(authorization := r.authorization + 1), before.made, follow, server);
    }
  }

  lemma {:induction false} RequestsBounded(r: Counts, made: nat, follow: bool, server: Server)
    requires r.authorization <= AUTHORIZATION_MAX_COUNT
    ensures Send(r, made, follow, server).made < made + Pow2(Budget(r) + 1)
    decreases Budget(r), 2
  {
    var reply := server(made);
    if reply.connects && reply.ok {
      RedirectBounded(r, reply, made + 1, follow, server);
      var a := Redirected(r, reply, made + 1, follow, server);
      DigestBounded(a, follow, server);
      Pow2Monotone(Budget(a.request), Budget(r));
    }
  }

  /** Twenty redirects, then challenges for ever. */
  function Greedy(n: nat): Reply {
    if n < REDIRECT_MAX_COUNT then Reply(true, true, 302, true, false) else Reply(true, true, 401, false, true)
  }

  function GreedyCounts(made: nat): Counts
    requires made <= 25
  {
    if made <= 20 then Counts(20 - made, 0) else Counts(0, made - 20)
  }

  /** One step of the greedy server: the request it sends back nests one deeper. */
  lemma GreedyStep(made: nat)
    requires made < 25
    ensures Send(GreedyCounts(made), made, true, Greedy).depth >=
            Send(GreedyCounts(made + 1), made + 1, true, Greedy).depth + 1
  {
    var r := GreedyCounts(made);
    var inner := Send(GreedyCounts(made + 1), made + 1, true, Greedy);
    hide Send;
    var reply := Greedy(made);
    var a := Redirected(r, reply, made + 1, true, Greedy);
    if made < 20 {
      assert a.depth == inner.depth + 1;
    } else {
      assert a == Outcome(true, reply, r, made + 1, 0);
    }
    SendIs(r, made, true, Greedy);
    hide Redirected;
    AuthorizedKeepsDepth(a, true, Greedy);
  }

  lemma {:induction false} SendIs(r: Counts, made: nat, follow: bool, server: Server)
    requires r.authorization <= AUTHORIZATION_MAX_COUNT
    ensures var reply := server(made);
            reply.connects && reply.ok ==>
              Send(r, made, follow, server) ==
              Authorized(Redirected(r, reply, made + 1, follow, server), follow, server)
  {
    hide Authorized, Redirected;
  }

  lemma {:induction false} AuthorizedKeepsDepth(before: Outcome, follow: bool, server: Server)
    requires before.request.authorization <= AUTHORIZATION_MAX_COUNT
    ensures Authorized(before, follow, server).depth >= before.depth
  {
    hide Send, Budget;
  }

  /** The bound is reached. */
  lemma {:induction false} GreedyGoesDeepest(made: nat)
    requires made <= 25
    ensures Send(GreedyCounts(made), made, true, Greedy).depth == 25 - made
    decreases 25 - made
  {
    hide Send;
    if made < 25 {
      GreedyStep(made);
      GreedyGoesDeepest(made + 1);
    }
  }

  // ---- What is answered -------------------------------------------------------------------------

  /** A reply was read. */
  predicate Received(reply: Reply) { reply.connects && reply.ok }

  predicate Followable(reply: Reply) { Received(reply) && 300 < reply.status < 400 && reply.location }

  predicate Challenges(reply: Reply) {
    Received(reply) && (reply.status == 401 || reply.status == 407) && reply.challenge
  }

  /** A reply that is itself an answer: read, and not a redirect that the client follows. */
  predicate IsAnswer(reply: Reply, follow: bool) { Received(reply) && !(follow && 300 < reply.status < 400) }

  /** A reply that another request may come after. */
  predicate GoesOn(reply: Reply, follow: bool) { (follow && Followable(reply)) || Challenges(reply) }

  /** An outcome tells what the last of the replies from `made` on was, and all before it went on. */
  ghost predicate Tells(o: Outcome, made: nat, follow: bool, server: Server) {
    && made < o.made
    && (o.ret <==> IsAnswer(server(o.made - 1), follow))
    && (o.ret ==> o.reply == server(o.made - 1))
    && (forall i :: made <= i < o.made - 1 ==> GoesOn(server(i), follow))
  }

  lemma {:induction false} RedirectTells(r: Counts, made: nat, follow: bool, server: Server)
    requires r.authorization <= AUTHORIZATION_MAX_COUNT && Received(server(made))
    ensures var o := Redirected(r, server(made), made + 1, follow, server);
            Tells(o, made, follow, server) && (!o.ret ==> o.reply == server(made) && IsRedirect(o.reply))
    decreases Budget(r), 0
  {
    hide Send;
    var first := server(made);
    if IsRedirect(first) && follow && r.redirect > 0 && first.location {
      SendTells(r.(redirect := r.redirect - 1), made + 1, follow, server);
    }
  }

  /** Two runs of requests one after the other. */
  lemma TellsOn(before: Outcome, inner: Outcome, o: Outcome, made: nat, follow: bool, server: Server)
    requires Tells(before, made, follow, server) && GoesOn(server(before.made - 1), follow)
    requires Tells(inner, before.made, follow, server)
    requires o.ret == inner.ret && o.made == inner.made && (o.ret ==> o.reply == inner.reply)
    ensures Tells(o, made, follow, server)
  {
    hide GoesOn, IsAnswer;
  }

  lemma {:induction false} DigestTells(before: Outcome, made: nat, follow: bool, server: Server)
    requires before.request.authorization <= AUTHORIZATION_MAX_COUNT
    requires Tells(before, made, follow, server) && (!before.ret ==> !IsChallenge(before.reply))
    ensures Tells(Authorized(before, follow, server), made, follow, server)
    decreases Budget(before.request), 1
  {
    hide Send, Tells;
    var r := before.request;
    if IsChallenge(before.reply) && r.authorization < AUTHORIZATION_MAX_COUNT {
      var r' := r.(authorization := r.authorization + 1);
      var inner := Send(r', before.made, follow, server);
      SendTells(r', before.made, follow, server);
      LastWentOn(before, made, follow, server);
      TellsOn(before, inner, Authorized(before, follow, server), made, follow, server);
    }
  }

  lemma LastWentOn(before: Outcome, made: nat, follow: bool, server: Server)
    requires Tells(before, made, follow, server) && before.ret && IsChallenge(before.reply)
    ensures before.made > 0 && GoesOn(server(before.made - 1), follow)
  {
  }

  /** What `send` answers, for every server: it succeeds exactly when the last reply it got is an answer,
      which it then gives back, and it went on after each reply before that one because that was a
      redirect to follow or a challenge to meet. */
  lemma {:induction false} SendTells(r: Counts, made: nat, follow: bool, server: Server)
    requires r.authorization <= AUTHORIZATION_MAX_COUNT
    ensures Tells(Send(r, made, follow, server), made, follow, server)
    decreases Budget(r), 2
  {
    var reply := server(made);
    if Received(reply) {
      SendIs(r, made, follow, server);
      RedirectTells(r, made, follow, server);
      var before := Redirected(r, reply, made + 1, follow, server);
      hide Send, Redirected, Authorized, Tells;
      DigestTells(before, made, follow, server);
    }
  }

  /** The request sent after a reply, if any; the counts are all that matters of it. */
  function Next(r: Counts, reply: Reply, follow: bool): Option<Counts>
    requires r.authorization <= AUTHORIZATION_MAX_COUNT
  {
    if !Received(reply) then None
    else if follow && IsRedirect(reply) then
      if r.redirect > 0 && reply.location then Some(r.(redirect := r.redirect - 1)) else None
    else if IsChallenge(reply) && r.authorization < AUTHORIZATION_MAX_COUNT then
      Some(r.(authorization := r.authorization + 1))
    else None
  }

  /** The first reply that nothing is sent after, and the counts then. */
  function Chain(r: Counts, made: nat, follow: bool, server: Server): (nat, Counts)
    requires r.authorization <= AUTHORIZATION_MAX_COUNT
    decreases Budget(r)
  {
    match Next(r, server(made), follow)
    case None => (made, r)
    case Some(r') => Chain(r', made + 1, follow, server)
  }

  /** How the requests made by `send` are those made by the nested one, when nothing is sent after it. */
  lemma {:induction false} SendNests(r: Counts, made: nat, follow: bool, server: Server)
    requires r.authorization <= AUTHORIZATION_MAX_COUNT
    ensures var next := Next(r, server(made), follow);
            var o := Send(r, made, follow, server);
            (next.None? ==> o.made == made + 1 && o.depth == 0) &&
            (next.Some? ==>
               next.value.authorization <= AUTHORIZATION_MAX_COUNT &&
               var inner := Send(next.value, made + 1, follow, server);
               (next.value.redirect < r.redirect && inner.ret ==> !IsChallenge(inner.reply)) ==>
                 o.made == inner.made && o.depth == inner.depth + 1)
  {
    var reply := server(made);
    if Received(reply) {
      SendIs(r, made, follow, server);
      hide Send;
      if follow && IsRedirect(reply) { assert !IsChallenge(reply); }
    }
  }

  /** The requests go on one by one to the end of the chain and no further, unless that is a challenge
      that comes too late, behind redirects. */
  lemma {:induction false} ChainIsMade(r: Counts, made: nat, follow: bool, server: Server)
    requires r.authorization <= AUTHORIZATION_MAX_COUNT
    ensures var (m, end) := Chain(r, made, follow, server);
            made <= m && end.redirect <= r.redirect && end.authorization <= AUTHORIZATION_MAX_COUNT &&
            (end.redirect == r.redirect || !Challenges(server(m)) ==>
               var o := Send(r, made, follow, server);
               o.made == m + 1 && o.depth == m - made)
    decreases Budget(r)
  {
    hide Send, Challenges, Received, IsRedirect, IsChallenge;
    SendNests(r, made, follow, server);
    var next := Next(r, server(made), follow);
    if next.Some? {
      ChainIsMade(next.value, made + 1, follow, server);
      LateChallenge(next.value, made + 1, follow, server);
    }
  }

  lemma {:induction false} LateChallenge(r: Counts, made: nat, follow: bool, server: Server)
    requires r.authorization <= AUTHORIZATION_MAX_COUNT
    ensures var o := Send(r, made, follow, server);
            o.made > 0 && (o.ret && IsChallenge(o.reply) ==> Challenges(server(o.made - 1)))
  {
    hide Send;
    SendTells(r, made, follow, server);
  }

  lemma {:induction false} RedirectChain(r: Counts, made: nat, k: nat, server: Server)
    requires r.authorization <= AUTHORIZATION_MAX_COUNT && k <= r.redirect
    requires forall i :: made <= i < made + k ==> Followable(server(i))
    requires var last := server(made + k);
             !Challenges(last) && (Followable(last) ==> k == r.redirect)
    ensures Chain(r, made, true, server) == (made + k, r.(redirect := r.redirect - k))
    decreases k
  {
    if k > 0 { RedirectChain(r.(redirect := r.redirect - 1), made + 1, k - 1, server); }
  }

  /** A new request that meets `k` redirects it can follow and then something else than a challenge. Up to
      twenty are followed: it then succeeds with the reply after them exactly when that was read and is
      not a redirect, and makes one request more than there were redirects. The twenty-first is not. */
  lemma {:induction false} RedirectsThenAnswer(k: nat, server: Server)
    requires forall i :: 0 <= i < k ==> Followable(server(i))
    requires !Followable(server(k)) && !Challenges(server(k))
    ensures var o, last := Send(NEW_REQUEST, 0, true, server), server(k);
            && (k <= 20 ==> o.made == k + 1 && o.depth == k)
            && (k <= 20 ==> (o.ret <==> last.connects && last.ok && !(300 < last.status < 400)))
            && (o.ret ==> o.reply == last)
            && (k > 20 ==> !o.ret && o.made == 21)
  {
    hide Send;
    var n := if k <= 20 then k else 20;
    RedirectChain(NEW_REQUEST, 0, n, server);
    ChainIsMade(NEW_REQUEST, 0, true, server);
    SendTells(NEW_REQUEST, 0, true, server);
  }

  lemma {:induction false} ChallengeChain(r: Counts, made: nat, k: nat, follow: bool, server: Server)
    requires r.authorization + k <= AUTHORIZATION_MAX_COUNT
    requires forall i :: made <= i < made + k ==> Challenges(server(i))
    requires var last := server(made + k);
             !(follow && Followable(last)) && (Challenges(last) ==> r.authorization + k == AUTHORIZATION_MAX_COUNT)
    ensures Chain(r, made, follow, server) == (made + k, r.(authorization := r.authorization + k))
    decreases k
  {
    if k > 0 { ChallengeChain(r.(authorization := r.authorization + 1), made + 1, k - 1, follow, server); }
  }

  /** A new request that meets `k` challenges and then something that is neither a challenge nor followed.
      Up to five are met: it succeeds with the reply after them exactly when that is an answer. The sixth
      is not met but given back, as a success. */
  lemma {:induction false} ChallengesThenAnswer(k: nat, follow: bool, server: Server)
    requires forall i :: 0 <= i < k ==> Challenges(server(i))
    requires !(follow && Followable(server(k))) && !Challenges(server(k))
    ensures var o, last := Send(NEW_REQUEST, 0, follow, server), server(k);
            && (k <= 5 ==> o.made == k + 1 && o.depth == k)
            && (k <= 5 ==> (o.ret <==> last.connects && last.ok && !(follow && 300 < last.status < 400)))
            && (k <= 5 && o.ret ==> o.reply == last)
            && (k > 5 ==> o.ret && o.reply == server(5) && o.made == 6)
  {
    hide Send;
    var n := if k <= 5 then k else 5;
    ChallengeChain(NEW_REQUEST, 0, n, follow, server);
    ChainIsMade(NEW_REQUEST, 0, follow, server);
    SendTells(NEW_REQUEST, 0, follow, server);
  }
}
