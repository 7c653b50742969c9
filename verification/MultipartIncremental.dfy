/** Feeding the parser in pieces. */
module MultipartIncremental {
  import opened Bytes
  import opened Text
  import opened Multipart
  import opened MultipartStream
  import opened MultipartRefinement
  import opened MultipartWindow
  import opened MultipartCallbacks

  /** Every header line of the document is under the limit, an unfinished one at most at it. */
  predicate LinesShort(d: Doc, boundary: string)
    requires WellFormed(d)
    decreases |Unsettled(d)|, if d.state == NewEntry then 1 else 0
  {
    && (d.state == Headers ==> LineShort(d.rest))
    && (CanStep(d, boundary) ==> LinesShort(Step(d, boundary), boundary))
  }

  predicate LineShort(rest: string) {
    var pos := Find(rest, CRLF);
    if pos < |rest| then pos < HEADER_MAX_LENGTH else |rest| <= HEADER_MAX_LENGTH
  }

  lemma LineShortPrefix(rest: string, data: string)
    requires LineShort(rest + data)
    ensures LineShort(rest)
  {
    var pos := Find(rest, CRLF);
    if pos < |rest| {
      FindGrows(rest, data, CRLF);
    } else {
      var pos' := Find(rest + data, CRLF);
      if pos' + 2 <= |rest| {
        AtPrefix(rest, data, CRLF, pos');
      }
    }
  }

  lemma {:induction false} ShortPrefix(d: Doc, data: string, boundary: string)
    requires WellFormed(d) && LinesShort(Extend(d, data), boundary)
    ensures LinesShort(d, boundary)
    ensures LinesShort(Extend(Settle(d, boundary), data), boundary)
    decreases |Unsettled(d)|, if d.state == NewEntry then 1 else 0
  {
    if d.state == Headers { LineShortPrefix(d.rest, data); }
    if CanStep(d, boundary) {
      StepExtends(d, data, boundary);
      ShortPrefix(Step(d, boundary), data, boundary);
    }
  }

  lemma {:induction false} ShortFits(d: Doc, boundary: string, entering: bool)
    requires WellFormed(d) && LinesShort(d, boundary)
    ensures LinesFit(d, boundary, entering)
    decreases |Unsettled(d)|, if d.state == NewEntry then 1 else 0
  {
    if CanStep(d, boundary) { ShortFits(Step(d, boundary), boundary, d.state != Headers); }
  }

  lemma StepSuffix(d: Doc, boundary: string)
    requires WellFormed(d) && CanStep(d, boundary)
    ensures Suffix(Unsettled(Step(d, boundary)), Unsettled(d))
  {
  }

  /** What is not settled is always the end of the input. */
  lemma {:induction false} SettleSuffix(d: Doc, boundary: string)
    requires WellFormed(d)
    ensures Suffix(Unsettled(Settle(d, boundary)), Unsettled(d))
    decreases |Unsettled(d)|, if d.state == NewEntry then 1 else 0
  {
    if CanStep(d, boundary) {
      var d' := Step(d, boundary);
      StepSuffix(d, boundary);
      SettleSuffix(d', boundary);
      SuffixOfSuffix(Unsettled(Settle(d, boundary)), Unsettled(d'), Unsettled(d));
    }
  }

  function Document(input: string, boundary: string): (d: Doc)
    ensures WellFormed(d) && !CanStep(d, boundary)
  {
    Settle(Extend(START, input), boundary)
  }

  /** Every delimiter that begins in what was seen and ends in what comes next is kept in the window. */
  ghost predicate HeldBack(c: Config, seen: string, data: string, boundary: string) {
    forall i :: 0 <= i < |seen| && At(seen + data, Delimiter(boundary), i) && |seen| < i + |Delimiter(boundary)| ==>
                  Keeps(c, |seen| - i)
  }

  /** Whatever one call can be given next, the state an earlier call left is ready for it. */
  lemma ReadyForMore(c: Config, seen: string, data: string, boundary: string)
    requires c.state == Body ==> PartsOf(c.calls) != []
    requires Abs(c) == Document(seen, boundary) && c.valid == Complete(Abs(c))
    requires HeldBack(c, seen, data, boundary)
    ensures Ready(c.(buf := c.buf + data), boundary)
    ensures Abs(c.(buf := c.buf + data)) == Extend(Abs(c), data)
  {
    hide PartsOf, Settle, Find, Delimiter, HeldBack;
    var c' := c.(buf := c.buf + data);
    if c.state == Body {
      var h := Handed(c);
      var open := h + c.buf;
      assert open + data == h + c'.buf;
      assert WithLast(PartsOf(c.calls), open)[..|PartsOf(c.calls)| - 1] == PartsOf(c.calls)[..|PartsOf(c.calls)| - 1];
      SettleSuffix(Extend(START, seen), boundary);
      assert Unsettled(Abs(c)) == open;
      assert "" + seen == seen;
      HandedStaysClear(c, seen, data, boundary);
    }
  }

  /** With no delimiter inside the open text, and those across the cut in the window, none starts in the
      text handed on. */
  lemma HandedStaysClear(c: Config, seen: string, data: string, boundary: string)
    requires c.state == Body && PartsOf(c.calls) != []
    requires Suffix(Handed(c) + c.buf, seen)
    requires Find(Handed(c) + c.buf, Delimiter(boundary)) == |Handed(c) + c.buf|
    requires HeldBack(c, seen, data, boundary)
    ensures forall i :: 0 <= i < |Handed(c)| ==> !At(Handed(c) + c.buf + data, Delimiter(boundary), i)
  {
    hide PartsOf, Delimiter;
    var open := Handed(c) + c.buf;
    var before := seen[..|seen| - |open|];
    assert seen == before + open && seen + data == before + (open + data);
    forall i | 0 <= i < |Handed(c)| ensures !At(open + data, Delimiter(boundary), i) {
      AtSuffix(before, open + data, Delimiter(boundary), i);
      if i + |Delimiter(boundary)| <= |open| { AtPrefix(open, data, Delimiter(boundary), i); }
      assert |seen| - (|before| + i) == |open| - i;
    }
  }

  lemma CutsSafeInit(pieces: seq<string>, boundary: string)
    requires pieces != [] && CutsSafe(pieces, boundary)
    ensures CutsSafe(pieces[..|pieces| - 1], boundary)
  {
    hide Delimiter;
    var init, last := pieces[..|pieces| - 1], pieces[|pieces| - 1];
    forall j, i | 0 <= j <= |init| && At(Join(init), Delimiter(boundary), i) &&
                  i < Cut(init, j) < i + |Delimiter(boundary)|
      ensures SafeCut(Join(init), i, Cut(init, j), boundary)
    {
      CutInit(pieces, j);
      AtPrefix(Join(init), last, Delimiter(boundary), i);
      assert SafeCut(Join(pieces), i, Cut(pieces, j), boundary);
      SafeInPrefix(Join(init), last, i, Cut(init, j), boundary);
    }
  }

  lemma SafeInPrefix(text: string, rest: string, i: nat, cut: nat, boundary: string)
    requires SafeCut(text + rest, i, cut, boundary) && i < |text|
    ensures SafeCut(text, i, cut, boundary)
  {
    forall p | i - |Delimiter(boundary)| < p < i ensures !At(text, DASH, p) {
      if p + 4 <= |text| { AtPrefix(text, rest, DASH, p); }
    }
  }

  lemma {:induction false} SafeMeansHeldBack(pieces: seq<string>, boundary: string)
    requires pieces != [] && CutsSafe(pieces, boundary)
    ensures var init := pieces[..|pieces| - 1];
            HeldBack(ParseAll(init, boundary, ACCEPT).0, Join(init), pieces[|pieces| - 1], boundary)
  {
    hide Delimiter, Keeps, ParseAll, SafeCut;
    var init, last := pieces[..|pieces| - 1], pieces[|pieces| - 1];
    var seen, c := Join(init), ParseAll(init, boundary, ACCEPT).0;
    forall i | 0 <= i < |seen| && At(seen + last, Delimiter(boundary), i) && |seen| < i + |Delimiter(boundary)|
      ensures Keeps(c, |seen| - i)
    {
      forall j | 0 <= j <= |init| && i < Cut(init, j) < i + |Delimiter(boundary)|
        ensures SafeCut(seen + last, i, Cut(init, j), boundary)
      {
        CutInit(pieces, j);
        assert At(Join(pieces), Delimiter(boundary), i);
      }
      KeptBack(init, last, i, boundary);
    }
  }

  /** The parser fed in pieces holds the document of the whole input. */
  lemma {:induction false} AcceptingPieces(pieces: seq<string>, boundary: string)
    requires CutsSafe(pieces, boundary)
    requires LinesShort(Extend(START, Join(pieces)), boundary)
    ensures var c := ParseAll(pieces, boundary, ACCEPT).0;
            && (c.state == Body ==> PartsOf(c.calls) != [])
            && Abs(c) == Document(Join(pieces), boundary)
            && c.valid == Complete(Abs(c))
            && ParseAll(pieces, boundary, ACCEPT).1 == Good(Abs(c), boundary)
  {
    hide CutsSafe, HeldBack;
    if pieces == [] {
    } else {
      var init, data := pieces[..|pieces| - 1], pieces[|pieces| - 1];
      var seen := Join(init);
      assert Extend(Extend(START, seen), data) == Extend(START, seen + data);
      ShortPrefix(Extend(START, seen), data, boundary);
      CutsSafeInit(pieces, boundary);
      SafeMeansHeldBack(pieces, boundary);
      AcceptingPieces(init, boundary);
      var c := ParseAll(init, boundary, ACCEPT).0;
      ReadyForMore(c, seen, data, boundary);
      ShortFits(Extend(Abs(c), data), boundary, true);
      AcceptingRunSettles(c.(buf := c.buf + data), boundary);
      SettleEarly(Extend(START, seen), data, boundary);
    }
  }

  /** The parser fed in pieces holds the document of the whole input, for any callbacks that refused
      nothing. */
  lemma {:induction false} PiecesDocument(pieces: seq<string>, boundary: string, answer: Callbacks)
    requires CutsSafe(pieces, boundary)
    requires LinesShort(Extend(START, Join(pieces)), boundary)
    requires Accepted(answer, ParseAll(pieces, boundary, answer).0.calls, 0)
    ensures var (c, ok) := ParseAll(pieces, boundary, answer);
            && (c.state == Body ==> PartsOf(c.calls) != [])
            && Abs(c) == Document(Join(pieces), boundary)
            && c.valid == Complete(Abs(c))
            && ok == Good(Abs(c), boundary)
  {
    hide ParseAll, CutsSafe;
    Unrefused(pieces, boundary, answer);
    AcceptingPieces(pieces, boundary);
  }

  /** The whole input in one call is cut nowhere inside. */
  lemma WholeIsSafe(input: string, boundary: string)
    ensures CutsSafe([input], boundary) && Join([input]) == input
  {
    hide SafeCut, Delimiter;
    var one := [input];
    assert one[..0] == [] && one[..1] == one && Join(one) == input;
    assert Cut(one, 0) == 0 && Cut(one, 1) == |input|;
  }

  /** Cutting the input outside delimiters or safely inside them changes nothing: same state, same
      validity, same last answer, same finished parts; and the open part, if any, has the same text handed
      on or waiting. The callbacks may be any that refuse none of the calls made either way. */
  lemma {:induction false} CutsDoNotMatter(pieces: seq<string>, boundary: string, answer: Callbacks)
    requires CutsSafe(pieces, boundary)
    requires LinesShort(Extend(START, Join(pieces)), boundary)
    requires Accepted(answer, ParseAll(pieces, boundary, answer).0.calls, 0)
    requires Accepted(answer, Multipart.Parse(INITIAL, Join(pieces), boundary, answer).0.calls, 0)
    ensures var (c, ok) := ParseAll(pieces, boundary, answer);
            var (c1, ok1) := Multipart.Parse(INITIAL, Join(pieces), boundary, answer);
            && c.state == c1.state && c.valid == c1.valid && ok == ok1
            && (c.state == Body ==> PartsOf(c.calls) != [] && PartsOf(c1.calls) != [])
            && Abs(c) == Abs(c1)
            && (c.state != Body ==> PartsOf(c.calls) == PartsOf(c1.calls) && c.buf == c1.buf)
  {
    hide CutsSafe, Run, LinesShort, Document;
    var one := [Join(pieces)];
    WholeIsSafe(Join(pieces), boundary);
    assert one[..0] == [];
    assert ParseAll(one, boundary, answer) ==
           Multipart.Parse(ParseAll(one[..0], boundary, answer).0, one[0], boundary, answer);
    hide ParseAll, Multipart.Parse;
    PiecesDocument(pieces, boundary, answer);
    PiecesDocument(one, boundary, answer);
  }

  // ---- One cut inside a delimiter, exactly ----------------------------------------------------------

  lemma NoCarriageReturn(s: string, p: string)
    requires p != "" && p[0] !in s
    ensures Find(s, p) == |s|
  {
    forall i | 0 <= i < |s| ensures !At(s, p, i) {
      if i + |p| <= |s| { assert s[i..i + |p|][0] == s[i]; }
    }
    FindIs(s, p, |s|);
  }

  /** In content without dashes followed by a front part of a delimiter, the first dashes are the
      delimiter's, once they are there. */
  lemma FirstDashes(content: string, cut: nat, boundary: string)
    requires !Contains(content, DASH) && cut <= |Delimiter(boundary)|
    ensures Find(content + Delimiter(boundary)[..cut], DASH) == if cut >= 4 then |content| else |content| + cut
  {
    hide Find;
    var front := Delimiter(boundary)[..cut];
    var text := content + front;
    if cut >= 4 {
      assert front == DASH + front[4..];
      NoOverlap(content, DASH, front[4..]);
      assert text == content + DASH + front[4..];
      FindAfter(content, DASH, front[4..]);
    } else {
      var whole := Delimiter(boundary);
      NoOverlap(content, DASH, whole[4..]);
      assert content + DASH + whole[4..] == text + whole[cut..];
      forall i | 0 <= i < |text| ensures !At(text, DASH, i) {
        if i + 4 <= |text| { AtPrefix(text, whole[cut..], DASH, i); }
      }
      FindIs(text, DASH, |text|);
    }
  }

  lemma DelimiterAtFront(boundary: string)
    ensures Find(Delimiter(boundary), Delimiter(boundary)) == 0 && Find(Delimiter(boundary), DASH) == 0
  {
    var delimiter := Delimiter(boundary);
    assert delimiter[0..|delimiter|] == delimiter && delimiter[0..4] == DASH;
  }

  /** With four bytes or more waiting and no dashes among them, the body state hands everything on. */
  lemma {:induction false} BodyHandsAllOn(c: Config, boundary: string)
    requires c.state == Body && |c.buf| >= 4 && Find(c.buf, DASH) == |c.buf|
    ensures Run(c, boundary, ACCEPT) == (c.(buf := "", calls := c.calls + [ContentCall(c.buf)]), true)
  {
    hide Find;
    assert c.buf[..|c.buf|] == c.buf && c.buf[|c.buf|..] == "";
    assert BodyTurn(c, boundary, ACCEPT) ==
           Return(c.(buf := "", calls := c.calls + [ContentCall(c.buf)]), true);
  }

  lemma {:induction false} TooShort(c: Config, boundary: string)
    requires c.state == Body && |c.buf| < 4
    ensures Run(c, boundary, ACCEPT) == (c, true)
  {
  }

  /** Content, and a delimiter cut after its second dash: the content is handed on and the rest waits. */
  lemma {:induction false} BodyWaits(c: Config, content: string, cut: nat, boundary: string)
    requires c.state == Body && 4 <= cut < |Delimiter(boundary)| && !Contains(content, DASH)
    requires c.buf == content + Delimiter(boundary)[..cut]
    ensures Run(c, boundary, ACCEPT) ==
            (c.(buf := Delimiter(boundary)[..cut], calls := c.calls + [ContentCall(content)]), true)
  {
    FirstDashes(content, cut, boundary);
    hide Find, Contains, Delimiter;
    assert c.buf[..|content|] == content && c.buf[|content|..] == Delimiter(boundary)[..cut];
    var c' := Erase(HandOn(c, |content|), |content|);
    assert DelimiterTurn(c', boundary, ACCEPT) == Return(c', true);
    assert BodyTurn(c, boundary, ACCEPT) == Return(c', true);
  }

  /** Content and a whole delimiter close the part. */
  lemma {:induction false} BodyCloses(c: Config, content: string, boundary: string)
    requires c.state == Body && !Contains(content, DASH) && c.buf == content + Delimiter(boundary)
    ensures Run(c, boundary, ACCEPT) ==
            (c.(state := Boundary, buf := "", calls := c.calls + [ContentCall(content), ContentCall("")]), true)
  {
    var delimiter := Delimiter(boundary);
    FirstDashes(content, |delimiter|, boundary);
    DelimiterAtFront(boundary);
    assert delimiter[..|delimiter|] == delimiter;
    hide Find, Contains, Delimiter;
    assert c.buf[..|content|] == content && c.buf[|content|..] == delimiter;
    var c1 := Erase(HandOn(c, |content|), |content|);
    assert c1.buf == delimiter && delimiter[..0] == "" && delimiter[0 + |delimiter|..] == "";
    assert c.calls + [ContentCall(content)] + [ContentCall("")] == c.calls + [ContentCall(content), ContentCall("")];
    var c2 := Erase(HandOn(c1, 0), 0 + |delimiter|).(state := Boundary);
    assert DelimiterTurn(c1, boundary, ACCEPT) == Again(c2);
    assert BodyTurn(c, boundary, ACCEPT) == Again(c2);
    assert Run(c2, boundary, ACCEPT) == (c2, true);
  }

  /** The second call when the front part of the delimiter is gone: the part stays open, and the rest of
      the delimiter is handed on as well or waits. */
  lemma {:induction false} BodyMisses(c: Config, cut: nat, boundary: string)
    requires c.state == Body && 1 <= cut <= 3 && '\r' !in boundary && c.buf == Delimiter(boundary)[cut..]
    ensures var c' := Run(c, boundary, ACCEPT).0;
            c' == c || c' == c.(buf := "", calls := c.calls + [ContentCall(c.buf)])
  {
    var second := c.buf;
    assert '\r' !in second;
    NoCarriageReturn(second, DASH);
    if |second| >= 4 { BodyHandsAllOn(c, boundary); } else { TooShort(c, boundary); }
  }

  lemma {:induction false} CutLate(c: Config, content: string, cut: nat, boundary: string)
    requires c.state == Body && 4 <= cut < |Delimiter(boundary)| && !Contains(content, DASH)
    requires c.buf == content + Delimiter(boundary)[..cut]
    ensures var c1 := Run(c, boundary, ACCEPT).0;
            var c2 := Multipart.Parse(c1, Delimiter(boundary)[cut..], boundary, ACCEPT).0;
            c2.state == Boundary && c.calls <= c2.calls && Datas(c2.calls[|c.calls|..]) == content && c2.buf == ""
  {
    hide Run, Contains;
    var delimiter := Delimiter(boundary);
    BodyWaits(c, content, cut, boundary);
    var c1 := Run(c, boundary, ACCEPT).0;
    assert c1.buf + delimiter[cut..] == delimiter == "" + delimiter;
    EmptyHasNoDashes();
    BodyCloses(c1.(buf := delimiter), "", boundary);
    var added := [ContentCall(content)] + [ContentCall(""), ContentCall("")];
    assert c.calls + [ContentCall(content)] + [ContentCall(""), ContentCall("")] == c.calls + added;
    CallsAdded(c.calls, added);
    DatasOfTwo("", "");
    assert added[1..] == [ContentCall(""), ContentCall("")];
  }

  lemma EmptyHasNoDashes()
    ensures !Contains("", DASH)
  {
  }

  lemma CallsAdded(calls: seq<Call>, added: seq<Call>)
    ensures calls <= calls + added && (calls + added)[|calls|..] == added
  {
  }

  lemma DatasOfTwo(content: string, more: string)
    ensures Datas([ContentCall(content)]) == content
    ensures Datas([ContentCall(content), ContentCall(more)]) == content + more
  {
    assert [ContentCall(content)][1..] == [] && [ContentCall(more)][1..] == [];
    assert [ContentCall(content), ContentCall(more)][1..] == [ContentCall(more)];
  }

  lemma AcceptingCut(c: Config, first: string, content: string, cut: nat, boundary: string)
    requires c.state == Body && '\r' !in boundary
    requires 1 <= cut < |Delimiter(boundary)| && !Contains(content, DASH)
    requires c.buf + first == content + Delimiter(boundary)[..cut]
    ensures var c1 := Multipart.Parse(c, first, boundary, ACCEPT).0;
            var c2 := Multipart.Parse(c1, Delimiter(boundary)[cut..], boundary, ACCEPT).0;
            (c2.state == Boundary <==> cut >= 4 || |content| + cut < 4) &&
            (c2.state != Boundary ==> c2.state == Body) &&
            (c2.state == Boundary ==>
               c.calls <= c2.calls && Datas(c2.calls[|c.calls|..]) == content && c2.buf == "") &&
            (c2.state != Boundary ==>
               c.calls <= c2.calls && content + Delimiter(boundary)[..cut] <= Datas(c2.calls[|c.calls|..]) &&
               Datas(c2.calls[|c.calls|..]) + c2.buf == content + Delimiter(boundary))
  {
    var delimiter := Delimiter(boundary);
    var c0 := c.(buf := c.buf + first);
    if cut >= 4 {
      CutLate(c0, content, cut, boundary);
    } else if |content| + cut < 4 {
      TooShort(c0, boundary);
      assert c0.buf + delimiter[cut..] == content + delimiter;
      BodyCloses(c0.(buf := content + delimiter), content, boundary);
      CallsAdded(c.calls, [ContentCall(content), ContentCall("")]);
      DatasOfTwo(content, "");
    } else {
      FirstDashes(content, cut, boundary);
      CutEarly(c0, content, cut, boundary);
    }
  }

  /** The front of the delimiter is handed on with the content. */
  lemma {:induction false} CutEarly(c: Config, content: string, cut: nat, boundary: string)
    requires c.state == Body && '\r' !in boundary && 1 <= cut <= 3 && cut < |Delimiter(boundary)|
    requires c.buf == content + Delimiter(boundary)[..cut] && |c.buf| >= 4 && Find(c.buf, DASH) == |c.buf|
    ensures var c1 := Run(c, boundary, ACCEPT).0;
            var c2 := Multipart.Parse(c1, Delimiter(boundary)[cut..], boundary, ACCEPT).0;
            c2.state == Body && c.calls <= c2.calls && c.buf <= Datas(c2.calls[|c.calls|..]) &&
            Datas(c2.calls[|c.calls|..]) + c2.buf == content + Delimiter(boundary)
  {
    hide Run, Find, Datas;
    var delimiter := Delimiter(boundary);
    var front, back := c.buf, delimiter[cut..];
    BodyHandsAllOn(c, boundary);
    var c1 := Run(c, boundary, ACCEPT).0;
    assert c1.buf + back == back;
    BodyMisses(c1.(buf := back), cut, boundary);
    CallsAdded(c.calls, [ContentCall(front)]);
    CallsAdded(c.calls, [ContentCall(front)] + [ContentCall(back)]);
    assert c1.calls + [ContentCall(back)] == c.calls + ([ContentCall(front)] + [ContentCall(back)]);
    assert [ContentCall(front)] + [ContentCall(back)] == [ContentCall(front), ContentCall(back)];
    DatasOfTwo(front, back);
    assert front + back == content + delimiter;
  }

  /** A delimiter cut in two, after content that has no dashes of its own and whatever part of the content
      was waiting already. The delimiter is seen exactly when the cut falls after its second dash, or so
      few bytes wait that the parser does not look yet; and then the content was handed on whole, and
      nothing else. Otherwise the front of the delimiter is handed on after it and the part stays open.
      The callbacks may be any that refuse neither call anything. */
  lemma CutInsideDelimiter(
    c: Config, first: string, content: string, cut: nat, boundary: string, answer: Callbacks)
    requires c.state == Body && '\r' !in boundary
    requires 1 <= cut < |Delimiter(boundary)| && !Contains(content, DASH)
    requires c.buf + first == content + Delimiter(boundary)[..cut]
    requires var c1 := Multipart.Parse(c, first, boundary, answer).0;
             var c2 := Multipart.Parse(c1, Delimiter(boundary)[cut..], boundary, answer).0;
             Accepted(answer, c2.calls, |c.calls|)
    ensures var c1 := Multipart.Parse(c, first, boundary, answer).0;
            var c2 := Multipart.Parse(c1, Delimiter(boundary)[cut..], boundary, answer).0;
            (c2.state == Boundary <==> cut >= 4 || |content| + cut < 4) &&
            (c2.state != Boundary ==> c2.state == Body) &&
            (c2.state == Boundary ==>
               c.calls <= c2.calls && Datas(c2.calls[|c.calls|..]) == content && c2.buf == "") &&
            (c2.state != Boundary ==>
               c.calls <= c2.calls && content + Delimiter(boundary)[..cut] <= Datas(c2.calls[|c.calls|..]) &&
               Datas(c2.calls[|c.calls|..]) + c2.buf == content + Delimiter(boundary))
  {
    hide Multipart.Parse, Delimiter, Contains, Datas;
    UnrefusedTwice(c, first, Delimiter(boundary)[cut..], boundary, answer);
    AcceptingCut(c, first, content, cut, boundary);
  }
}
