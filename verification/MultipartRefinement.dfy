/** The machine of `Multipart` refines the abstract document of `MultipartStream`, and so agrees with
    itself however the input reaches it. */
module MultipartRefinement {
  import opened Bytes
  import opened Text
  import opened Multipart
  import opened MultipartCallbacks
  import opened MultipartStream

  function WithCall(parts: seq<Part>, call: Call): seq<Part> {
    match call
    case HeaderCall(file) => parts + [Part(file, "")]
    case ContentCall(data) => if parts == [] then [] else WithLast(parts, Last(parts).content + data)
  }

  /** The parts a list of callback calls builds up, contents concatenated. */
  function PartsOf(calls: seq<Call>): seq<Part> {
    if calls == [] then [] else WithCall(PartsOf(calls[..|calls| - 1]), calls[|calls| - 1])
  }

  lemma {:induction false} PartsOfSnoc(calls: seq<Call>, call: Call)
    ensures PartsOf(calls + [call]) == WithCall(PartsOf(calls), call)
  {
    assert (calls + [call])[..|calls|] == calls;
  }

  /** What the callbacks have been given of the open part. */
  function Handed(c: Config): string
    requires PartsOf(c.calls) != []
  {
    Last(PartsOf(c.calls)).content
  }

  function Abs(c: Config): (d: Doc)
    requires c.state == Body ==> PartsOf(c.calls) != []
    ensures WellFormed(d) && d.state == c.state
  {
    if c.state == Body then Doc(Body, c.file, WithLast(PartsOf(c.calls), Handed(c) + c.buf), "")
    else Doc(c.state, c.file, PartsOf(c.calls), c.buf)
  }

  /** The machine can carry on: no delimiter starts in content it has already handed on. */
  ghost predicate Ready(c: Config, boundary: string) {
    && (c.state == Body ==>
          PartsOf(c.calls) != [] &&
          forall i :: 0 <= i < |Handed(c)| ==> !At(Handed(c) + c.buf, Delimiter(boundary), i))
    && (c.valid ==> c.state == Done)
    && (c.state == Done && c.buf == "" ==> c.valid)
  }

  /** `parse` answers true for this settled document. */
  predicate Good(d: Doc, boundary: string) {
    && (d.state == InitialBoundary ==> |d.rest| < |Opening(boundary)|)
    && (d.state == Done ==> d.rest == "")
  }

  predicate Complete(d: Doc) { d.state == Done && d.rest == "" }

  /** Every header line the machine measures, the first of each visit to the header state, is within
      the limit. `entering` says whether the present line is measured. */
  predicate LinesFit(d: Doc, boundary: string, entering: bool)
    requires WellFormed(d)
    decreases |Unsettled(d)|, if d.state == NewEntry then 1 else 0
  {
    && (d.state == Headers && entering ==> Find(d.rest, CRLF) <= HEADER_MAX_LENGTH)
    && (CanStep(d, boundary) ==> LinesFit(Step(d, boundary), boundary, d.state != Headers))
  }

  /** What a turn of the switch has to do with the document. */
  ghost predicate TurnFits(c: Config, t: Turn, boundary: string, entering: bool)
    requires Ready(c, boundary)
  {
    && (t.Again? ==>
          && Ready(t.c, boundary)
          && Settle(Abs(t.c), boundary) == Settle(Abs(c), boundary)
          && LinesFit(Abs(t.c), boundary, true) == LinesFit(Abs(c), boundary, entering))
    && (t.Return? ==> ReturnFits(c, t, boundary, entering))
  }

  ghost predicate ReturnFits(c: Config, t: Turn, boundary: string, entering: bool)
    requires Ready(c, boundary) && t.Return?
  {
    if LinesFit(Abs(c), boundary, entering) then
      && (t.c.state == Body ==> PartsOf(t.c.calls) != [])
      && Settle(Abs(c), boundary) == Abs(t.c)
      && t.c.valid == Complete(Abs(t.c))
      && t.ok == Good(Abs(t.c), boundary)
    else
      !t.ok && !t.c.valid
  }

  lemma OpeningFits(c: Config, boundary: string)
    requires Ready(c, boundary) && c.state == InitialBoundary
    ensures TurnFits(c, OpeningTurn(c, boundary), boundary, true)
  {
  }

  lemma BoundaryFits(c: Config, boundary: string)
    requires Ready(c, boundary) && c.state == Boundary
    ensures TurnFits(c, BoundaryTurn(c), boundary, true)
  {
    if At(c.buf, CRLF, 0) {
      assert Step(Abs(c), boundary) == Abs(c.(state := NewEntry, buf := c.buf[2..]));
    } else if At(c.buf, FINAL, 0) {
      assert Step(Abs(c), boundary) == Abs(c.(state := State.Done, buf := c.buf[4..]));
    }
  }

  lemma {:induction false} HeaderLinesFit(c: Config, boundary: string)
    requires Ready(c, boundary) && c.state == Headers
    ensures TurnFits(c, HeaderLines(c, ACCEPT), boundary, false)
    decreases |c.buf|
  {
    var pos := Find(c.buf, CRLF);
    if pos == |c.buf| {
    } else if pos == 0 {
      PartsOfSnoc(c.calls, HeaderCall(c.file));
      var c' := HeadersEnd(c, ACCEPT).c;
      assert Handed(c') == "";
      assert "" + c'.buf == c'.buf;
      assert WithLast(PartsOf(c'.calls), c'.buf) == PartsOf(c.calls) + [Part(c.file, c'.buf)];
      assert Step(Abs(c), boundary) == Abs(c');
    } else {
      var c' := LineTaken(c, pos);
      assert Step(Abs(c), boundary) == Abs(c');
      HeaderLinesFit(c', boundary);
    }
  }

  /** Handing on text in which no delimiter starts does not change the document. */
  lemma HandOnKeeps(c: Config, n: nat, boundary: string)
    requires Ready(c, boundary) && c.state == Body && n <= |c.buf|
    requires n <= Find(c.buf, Delimiter(boundary))
    ensures Ready(Erase(HandOn(c, n), n), boundary)
    ensures Abs(Erase(HandOn(c, n), n)) == Abs(c)
  {
    var c' := Erase(HandOn(c, n), n);
    var h, delimiter := Handed(c), Delimiter(boundary);
    PartsOfSnoc(c.calls, ContentCall(c.buf[..n]));
    assert Handed(c') == h + c.buf[..n];
    assert h + c.buf[..n] + c.buf[n..] == h + c.buf;
    FindDrop(h + c.buf, delimiter, |h|);
    assert (h + c.buf)[|h|..] == c.buf;
    assert WithLast(PartsOf(c'.calls), h + c.buf) == WithLast(PartsOf(c.calls), h + c.buf);
  }

  lemma OpenText(c: Config, boundary: string)
    requires Ready(c, boundary) && c.state == Body
    ensures Unsettled(Abs(c)) == Handed(c) + c.buf
    ensures Find(Handed(c) + c.buf, Delimiter(boundary)) == |Handed(c)| + Find(c.buf, Delimiter(boundary))
  {
    FindDrop(Handed(c) + c.buf, Delimiter(boundary), |Handed(c)|);
    assert (Handed(c) + c.buf)[|Handed(c)|..] == c.buf;
  }

  lemma DelimiterFits(c: Config, boundary: string)
    requires Ready(c, boundary) && c.state == Body
    ensures TurnFits(c, DelimiterTurn(c, boundary, ACCEPT), boundary, true)
  {
    var delimiter := Delimiter(boundary);
    OpenText(c, boundary);
    if |delimiter| <= |c.buf| {
      var pos := Find(c.buf, delimiter);
      if pos < |c.buf| {
        DelimiterFound(c, boundary);
      } else {
        HandOnKeeps(c, |delimiter|, boundary);
      }
    }
  }

  lemma WithLastTwice(parts: seq<Part>, a: string, b: string)
    requires parts != []
    ensures WithLast(WithLast(parts, a), b) == WithLast(parts, b) && Last(WithLast(parts, a)).content == a
  {
    assert WithLast(parts, a)[..|parts| - 1] == parts[..|parts| - 1];
  }

  lemma DelimiterFound(c: Config, boundary: string)
    requires Ready(c, boundary) && c.state == Body
    requires Find(c.buf, Delimiter(boundary)) < |c.buf|
    ensures CanStep(Abs(c), boundary)
    ensures DelimiterTurn(c, boundary, ACCEPT).Again?
    ensures Ready(DelimiterTurn(c, boundary, ACCEPT).c, boundary)
    ensures Abs(DelimiterTurn(c, boundary, ACCEPT).c) == Step(Abs(c), boundary)
  {
    hide Find, PartsOf, HeaderStep, WithLast;
    OpenText(c, boundary);
    var delimiter := Delimiter(boundary);
    var pos := Find(c.buf, delimiter);
    var h := Handed(c);
    PartsOfSnoc(c.calls, ContentCall(c.buf[..pos]));
    assert (h + c.buf)[..|h| + pos] == h + c.buf[..pos];
    assert (h + c.buf)[|h| + pos + |delimiter|..] == c.buf[pos + |delimiter|..];
    WithLastTwice(PartsOf(c.calls), h + c.buf, h + c.buf[..pos]);
  }

  lemma DashFirst(s: string, boundary: string)
    ensures Find(s, CRLF + "--") <= Find(s, Delimiter(boundary))
  {
    var r := Find(s, Delimiter(boundary));
    if r < |s| {
      assert s[r..r + 4] == s[r..r + |Delimiter(boundary)|][..4] == Delimiter(boundary)[..4] == CRLF + "--";
      assert At(s, CRLF + "--", r);
    }
  }

  lemma BodyFits(c: Config, boundary: string)
    requires Ready(c, boundary) && c.state == Body
    ensures TurnFits(c, BodyTurn(c, boundary, ACCEPT), boundary, true)
  {
    OpenText(c, boundary);
    var dash := CRLF + "--";
    if |dash| <= |c.buf| {
      var pos := Find(c.buf, dash);
      DashFirst(c.buf, boundary);
      HandOnKeeps(c, pos, boundary);
      DelimiterFits(Erase(HandOn(c, pos), pos), boundary);
    }
  }

  lemma SwitchFits(c: Config, boundary: string)
    requires Ready(c, boundary) && c.buf != ""
    ensures TurnFits(c, SwitchTurn(c, boundary, ACCEPT), boundary, true)
  {
    match c.state
    case InitialBoundary => OpeningFits(c, boundary);
    case NewEntry =>
      assert Step(Abs(c), boundary) == Abs(c.(file := NO_FILE, state := Headers));
    case Headers =>
      HeaderLinesFit(c, boundary);
    case Body => BodyFits(c, boundary);
    case Boundary => BoundaryFits(c, boundary);
    case Done =>
  }

  lemma {:induction false} AcceptingRunSettles(c: Config, boundary: string)
    requires Ready(c, boundary)
    ensures ReturnFits(c, RunTurn(c, boundary, ACCEPT), boundary, true)
    decreases |c.buf|, if c.state == NewEntry then 1 else 0
  {
    if c.buf == "" {
      if c.state == Body { OpenText(c, boundary); }
    } else {
      SwitchFits(c, boundary);
      var t := SwitchTurn(c, boundary, ACCEPT);
      if t.Again? { AcceptingRunSettles(t.c, boundary); }
    }
  }

  /** One call of `parse` settles exactly what the abstract document settles, reports success exactly
      when that document is good, and is valid exactly when it is complete; a measured header line over
      the limit makes it fail instead. This holds for any callbacks that refused nothing in the call. */
  lemma {:induction false} RunSettles(c: Config, boundary: string, answer: Callbacks)
    requires Ready(c, boundary) && Accepted(answer, Run(c, boundary, answer).0.calls, |c.calls|)
    ensures ReturnFits(c, RunTurn(c, boundary, answer), boundary, true)
  {
    hide Run;
    UnrefusedRun(c, boundary, answer);
    AcceptingRunSettles(c, boundary);
  }
}
