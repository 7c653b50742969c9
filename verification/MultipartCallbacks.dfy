/** What refusing callbacks do to the parser: nothing until the first refusal, which ends the call. */
module MultipartCallbacks {
  import opened Bytes
  import opened Multipart

  /** Callbacks that never refuse. */
  const ACCEPT: Callbacks := calls => true

  /** Every call after the first `from` was answered with true. */
  ghost predicate Accepted(answer: Callbacks, calls: seq<Call>, from: nat) {
    forall k :: from < k <= |calls| ==> answer(calls[..k])
  }

  /** `calls` goes on from `before` along `full`, up to the first call that is refused. */
  ghost predicate EndsRefused(answer: Callbacks, before: seq<Call>, calls: seq<Call>, full: seq<Call>) {
    before < calls <= full && !answer(calls) && Accepted(answer, calls[..|calls| - 1], |before|)
  }

  /** `t` is the turn `full` that all-accepting callbacks make, or that turn cut off at the first refusal. */
  ghost predicate CutAtRefusal(before: seq<Call>, full: Turn, t: Turn, answer: Callbacks) {
    before <= full.c.calls &&
    if Accepted(answer, full.c.calls, |before|) then t == full
    else t.Return? && !t.ok && !t.c.valid && EndsRefused(answer, before, t.c.calls, full.c.calls)
  }

  lemma OneMore(answer: Callbacks, before: seq<Call>, call: Call)
    ensures Accepted(answer, before + [call], |before|) <==> answer(before + [call])
    ensures before < before + [call] && Accepted(answer, (before + [call])[..|before|], |before|)
  {
    var calls := before + [call];
    assert calls[..|calls|] == calls;
  }

  /** Calls accepted first do not matter. */
  lemma After(before: seq<Call>, mid: seq<Call>, full: Turn, t: Turn, answer: Callbacks)
    requires before <= mid && Accepted(answer, mid, |before|) && CutAtRefusal(mid, full, t, answer)
    ensures CutAtRefusal(before, full, t, answer)
  {
    AcceptedSplits(answer, full.c.calls, mid, |before|);
    if !Accepted(answer, full.c.calls, |mid|) {
      var calls := t.c.calls;
      assert calls[..|calls| - 1][..|mid|] == mid;
      AcceptedSplits(answer, calls[..|calls| - 1], mid, |before|);
    }
  }

  lemma AcceptedSplits(answer: Callbacks, calls: seq<Call>, mid: seq<Call>, from: nat)
    requires mid <= calls && from <= |mid| && Accepted(answer, mid, from)
    ensures Accepted(answer, calls, from) <==> Accepted(answer, calls, |mid|)
  {
    forall k | from < k <= |mid| ensures answer(calls[..k]) { assert calls[..k] == mid[..k]; }
  }

  /** A refusal early on ends the turn, whatever the rest would have been. */
  lemma RefusedAt(before: seq<Call>, mid: seq<Call>, full: Turn, t: Turn, answer: Callbacks)
    requires EndsRefused(answer, before, mid, mid) && mid <= full.c.calls
    requires t.Return? && !t.ok && !t.c.valid && t.c.calls == mid
    ensures CutAtRefusal(before, full, t, answer)
  {
    assert full.c.calls[..|mid|] == mid;
  }

  lemma {:induction false} HeaderLinesWith(c: Config, answer: Callbacks)
    requires c.state == Headers
    ensures CutAtRefusal(c.calls, HeaderLines(c, ACCEPT), HeaderLines(c, answer), answer)
    decreases |c.buf|
  {
    hide Find, ReadHeaderLine, Accepted;
    var pos := Find(c.buf, CRLF);
    if pos == |c.buf| {
      NoCalls(answer, c.calls);
    } else if pos == 0 {
      OneMore(answer, c.calls, HeaderCall(c.file));
    } else {
      HeaderLinesWith(LineTaken(c, pos), answer);
    }
  }

  lemma NoCalls(answer: Callbacks, calls: seq<Call>)
    ensures Accepted(answer, calls, |calls|)
  {
  }

  lemma DelimiterWith(c: Config, boundary: string, answer: Callbacks)
    requires c.state == Body
    ensures CutAtRefusal(c.calls, DelimiterTurn(c, boundary, ACCEPT), DelimiterTurn(c, boundary, answer), answer)
  {
    hide Find, Accepted;
    NoCalls(answer, c.calls);
    var delimiter := Delimiter(boundary);
    if |delimiter| <= |c.buf| {
      var pos := Find(c.buf, delimiter);
      OneMore(answer, c.calls, ContentCall(c.buf[..if pos < |c.buf| then pos else |delimiter|]));
    }
  }

  lemma BodyWith(c: Config, boundary: string, answer: Callbacks)
    requires c.state == Body
    ensures CutAtRefusal(c.calls, BodyTurn(c, boundary, ACCEPT), BodyTurn(c, boundary, answer), answer)
  {
    hide Find, Accepted, DelimiterTurn, CutAtRefusal, EndsRefused;
    var dash := CRLF + "--";
    var full, t := BodyTurn(c, boundary, ACCEPT), BodyTurn(c, boundary, answer);
    if |dash| > |c.buf| {
      NothingHanded(c.calls, full, answer);
    } else {
      var pos := Find(c.buf, dash);
      var mid := HandOn(c, pos).calls;
      DelimiterWith(Erase(HandOn(c, pos), pos), boundary, answer);
      OneMore(answer, c.calls, ContentCall(c.buf[..pos]));
      if answer(mid) {
        After(c.calls, mid, full, t, answer);
      } else {
        RefusedNow(c.calls, mid, full, t, answer);
      }
    }
  }

  lemma NothingHanded(before: seq<Call>, full: Turn, answer: Callbacks)
    requires full.c.calls == before
    ensures CutAtRefusal(before, full, full, answer)
  {
  }

  lemma RefusedNow(before: seq<Call>, mid: seq<Call>, full: Turn, t: Turn, answer: Callbacks)
    requires before < mid && Accepted(answer, mid[..|mid| - 1], |before|) && !answer(mid)
    requires exists u :: CutAtRefusal(mid, full, u, answer)
    requires t.Return? && !t.ok && !t.c.valid && t.c.calls == mid
    ensures CutAtRefusal(before, full, t, answer)
  {
    RefusedAt(before, mid, full, t, answer);
  }

  lemma SwitchWith(c: Config, boundary: string, answer: Callbacks)
    requires c.buf != ""
    ensures CutAtRefusal(c.calls, SwitchTurn(c, boundary, ACCEPT), SwitchTurn(c, boundary, answer), answer)
  {
    hide HeaderLines, BodyTurn, CutAtRefusal, Find;
    if c.state == Headers && Find(c.buf, CRLF) <= HEADER_MAX_LENGTH {
      HeaderLinesWith(c, answer);
    } else if c.state == Body {
      BodyWith(c, boundary, answer);
    } else {
      NothingHanded(c.calls, SwitchTurn(c, boundary, ACCEPT), answer);
    }
  }

  function RunTurn(c: Config, boundary: string, answer: Callbacks): Turn {
    Return(Run(c, boundary, answer).0, Run(c, boundary, answer).1)
  }

  /** A call of `parse` under any callbacks is the call under callbacks that accept everything, as long as
      no call is refused; at the first refusal it returns false, not valid, the refused call its last. */
  lemma {:induction false} RunWith(c: Config, boundary: string, answer: Callbacks)
    ensures CutAtRefusal(c.calls, RunTurn(c, boundary, ACCEPT), RunTurn(c, boundary, answer), answer)
    decreases |c.buf|, if c.state == NewEntry then 1 else 0
  {
    hide SwitchTurn, Accepted;
    if c.buf == "" {
      NoCalls(answer, c.calls);
    } else {
      SwitchWith(c, boundary, answer);
      var full, t := SwitchTurn(c, boundary, ACCEPT), SwitchTurn(c, boundary, answer);
      if full.Again? {
        RunWith(full.c, boundary, answer);
        if t == full {
          if Accepted(answer, full.c.calls, |c.calls|) {
            After(c.calls, full.c.calls, RunTurn(c, boundary, ACCEPT), RunTurn(c, boundary, answer), answer);
          }
        } else {
          LongerRun(c.calls, full, t, RunTurn(c, boundary, ACCEPT), answer);
        }
      }
    }
  }

  lemma LongerRun(before: seq<Call>, full: Turn, t: Turn, longer: Turn, answer: Callbacks)
    requires CutAtRefusal(before, full, t, answer) && t != full && full.c.calls <= longer.c.calls
    ensures CutAtRefusal(before, longer, t, answer)
  {
    assert longer.c.calls[..|t.c.calls|] == t.c.calls;
  }

  /** No call refused means that all would have been accepted. */
  lemma {:induction false} UnrefusedRun(c: Config, boundary: string, answer: Callbacks)
    requires Accepted(answer, Run(c, boundary, answer).0.calls, |c.calls|)
    ensures Run(c, boundary, answer) == Run(c, boundary, ACCEPT)
    ensures c.calls <= Run(c, boundary, answer).0.calls
  {
    hide Run;
    RunWith(c, boundary, answer);
    var calls := Run(c, boundary, answer).0.calls;
    assert calls[..|calls|] == calls;
  }

  lemma {:induction false} RunAddsCalls(c: Config, boundary: string, answer: Callbacks)
    ensures c.calls <= Run(c, boundary, answer).0.calls
  {
    hide Run;
    RunWith(c, boundary, answer);
  }

  /** Two calls in a row with nothing refused. */
  lemma UnrefusedTwice(c: Config, first: string, second: string, boundary: string, answer: Callbacks)
    requires var c1 := Multipart.Parse(c, first, boundary, answer).0;
             Accepted(answer, Multipart.Parse(c1, second, boundary, answer).0.calls, |c.calls|)
    ensures var c1 := Multipart.Parse(c, first, boundary, answer).0;
            c1 == Multipart.Parse(c, first, boundary, ACCEPT).0 &&
            Multipart.Parse(c1, second, boundary, answer) == Multipart.Parse(c1, second, boundary, ACCEPT)
  {
    hide Run;
    var c1 := Multipart.Parse(c, first, boundary, answer).0;
    var x, y := c.(buf := c.buf + first), c1.(buf := c1.buf + second);
    RunAddsCalls(x, boundary, answer);
    RunAddsCalls(y, boundary, answer);
    var calls := Run(y, boundary, answer).0.calls;
    forall k | |c.calls| < k <= |c1.calls| ensures answer(c1.calls[..k]) { assert c1.calls[..k] == calls[..k]; }
    UnrefusedRun(x, boundary, answer);
    UnrefusedRun(y, boundary, answer);
  }
}
