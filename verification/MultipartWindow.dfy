/** The window over whole runs: which bytes leave it, where they go, and what a run keeps back. */
module MultipartWindow {
  import opened Bytes
  import opened Text
  import opened Multipart
  import opened MultipartCallbacks
  import opened MultipartStream
  import opened MultipartRefinement

  /** The parser after one call of `parse` for each piece, and the answer of the last call. */
  function ParseAll(pieces: seq<string>, boundary: string, answer: Callbacks): (Config, bool) {
    if pieces == [] then (INITIAL, true)
    else
      var before := ParseAll(pieces[..|pieces| - 1], boundary, answer).0;
      Multipart.Parse(before, pieces[|pieces| - 1], boundary, answer)
  }

  /** With no call refused, the callbacks might as well accept everything. */
  lemma {:induction false} Unrefused(pieces: seq<string>, boundary: string, answer: Callbacks)
    requires Accepted(answer, ParseAll(pieces, boundary, answer).0.calls, 0)
    ensures ParseAll(pieces, boundary, answer) == ParseAll(pieces, boundary, ACCEPT)
    decreases |pieces|
  {
    hide Run;
    if pieces != [] {
      var init, last := pieces[..|pieces| - 1], pieces[|pieces| - 1];
      var before := ParseAll(init, boundary, answer).0;
      UnrefusedRun(before.(buf := before.buf + last), boundary, answer);
      AcceptedPrefix(answer, before.calls, ParseAll(pieces, boundary, answer).0.calls);
      Unrefused(init, boundary, answer);
    }
  }

  lemma AcceptedPrefix(answer: Callbacks, calls: seq<Call>, more: seq<Call>)
    requires calls <= more && Accepted(answer, more, 0)
    ensures Accepted(answer, calls, 0)
  {
    forall k | 0 < k <= |calls| ensures answer(calls[..k]) { assert calls[..k] == more[..k]; }
  }

  // ---- What leaves the window -------------------------------------------------------------------

  ghost predicate Suffix(t: string, s: string) { |t| <= |s| && s[|s| - |t|..] == t }

  lemma SuffixOfSuffix(t: string, s': string, s: string)
    requires Suffix(t, s') && Suffix(s', s)
    ensures Suffix(t, s)
  {
    forall k | 0 <= k < |t| ensures s[|s| - |t|..][k] == t[k] {
      assert s'[|s'| - |t|..][k] == s'[|s'| - |t| + k];
      assert s[|s| - |s'|..][|s'| - |t| + k] == s[|s| - |t| + k];
    }
  }

  lemma ErasedSuffix(c: Config, n: nat)
    requires n <= |c.buf|
    ensures Suffix(c.buf[n..], c.buf)
  {
    assert |c.buf| - |c.buf[n..]| == n;
  }

  lemma {:induction false} HeaderLinesSuffix(c: Config, answer: Callbacks)
    requires c.state == Headers
    ensures Suffix(HeaderLines(c, answer).c.buf, c.buf)
    decreases |c.buf|
  {
    hide Find, ReadHeaderLine, Suffix;
    var pos := Find(c.buf, CRLF);
    assert c.buf[0..] == c.buf;
    if pos == |c.buf| {
      ErasedSuffix(c, 0);
    } else if pos == 0 {
      ErasedSuffix(c, 0);
      ErasedSuffix(c, 2);
    } else {
      var c' := LineTaken(c, pos);
      ErasedSuffix(c, pos + 2);
      HeaderLinesSuffix(c', answer);
      SuffixOfSuffix(HeaderLines(c', answer).c.buf, c'.buf, c.buf);
    }
  }

  lemma DelimiterSuffix(c: Config, boundary: string, answer: Callbacks)
    requires c.state == Body
    ensures Suffix(DelimiterTurn(c, boundary, answer).c.buf, c.buf)
  {
    var delimiter := Delimiter(boundary);
    ErasedSuffix(c, 0);
    if |delimiter| <= |c.buf| {
      var pos := Find(c.buf, delimiter);
      ErasedSuffix(c, if pos < |c.buf| then pos + |delimiter| else |delimiter|);
    }
  }

  lemma BodySuffix(c: Config, boundary: string, answer: Callbacks)
    requires c.state == Body
    ensures Suffix(BodyTurn(c, boundary, answer).c.buf, c.buf)
  {
    hide DelimiterTurn, Find;
    ErasedSuffix(c, 0);
    if |CRLF + "--"| <= |c.buf| {
      var pos := Find(c.buf, CRLF + "--");
      var c' := Erase(HandOn(c, pos), pos);
      ErasedSuffix(c, pos);
      DelimiterSuffix(c', boundary, answer);
      SuffixOfSuffix(DelimiterTurn(c', boundary, answer).c.buf, c'.buf, c.buf);
    }
  }

  /** A turn of the switch takes bytes off the front of the window and changes no other. */
  lemma TurnSuffix(c: Config, boundary: string, answer: Callbacks)
    requires c.buf != ""
    ensures Suffix(SwitchTurn(c, boundary, answer).c.buf, c.buf)
  {
    hide BodyTurn, HeaderLines, Suffix, Find;
    ErasedSuffix(c, 0);
    assert c.buf[0..] == c.buf;
    match c.state
    case InitialBoundary => if |Opening(boundary)| <= |c.buf| { ErasedSuffix(c, |Opening(boundary)|); }
    case Headers => HeaderLinesSuffix(c, answer);
    case Body => BodySuffix(c, boundary, answer);
    case Boundary =>
      if 2 <= |c.buf| { ErasedSuffix(c, 2); }
      if 4 <= |c.buf| { ErasedSuffix(c, 4); }
    case _ =>
  }

  lemma {:induction false} RunSuffix(c: Config, boundary: string, answer: Callbacks)
    ensures Suffix(Run(c, boundary, answer).0.buf, c.buf)
    decreases |c.buf|, if c.state == NewEntry then 1 else 0
  {
    hide SwitchTurn;
    if c.buf != "" {
      TurnSuffix(c, boundary, answer);
      var t := SwitchTurn(c, boundary, answer);
      if t.Again? {
        RunSuffix(t.c, boundary, answer);
        SuffixOfSuffix(Run(t.c, boundary, answer).0.buf, t.c.buf, c.buf);
      }
    }
  }

  /** However the input is cut, delimiters included, and whatever the callbacks answer, what was consumed
      followed by the window is the input. */
  lemma {:induction false} WindowIsSuffix(pieces: seq<string>, boundary: string, answer: Callbacks)
    ensures Suffix(ParseAll(pieces, boundary, answer).0.buf, Join(pieces))
    decreases |pieces|
  {
    hide Run;
    if pieces != [] {
      var init, last := pieces[..|pieces| - 1], pieces[|pieces| - 1];
      WindowIsSuffix(init, boundary, answer);
      var before := ParseAll(init, boundary, answer).0;
      SuffixExtends(before.buf, Join(init), last);
      RunSuffix(before.(buf := before.buf + last), boundary, answer);
      SuffixOfSuffix(ParseAll(pieces, boundary, answer).0.buf, before.buf + last, Join(pieces));
    }
  }

  lemma SuffixExtends(t: string, s: string, last: string)
    requires Suffix(t, s)
    ensures Suffix(t + last, s + last)
  {
    var k := |s| - |t|;
    assert s == s[..k] + t;
    assert s + last == s[..k] + (t + last);
  }

  // ---- Where it goes ----------------------------------------------------------------------------

  function Datas(calls: seq<Call>): string {
    if calls == [] then ""
    else (if calls[0].ContentCall? then calls[0].data else "") + Datas(calls[1..])
  }

  /** The turn's new calls hold, in order, every byte taken off the window, but for a closed delimiter. */
  ghost predicate Accounted(c: Config, t: Turn, boundary: string) {
    && |t.c.calls| >= |c.calls| && t.c.calls[..|c.calls|] == c.calls
    && (t.Again? || t.ok ==>
          c.buf == Datas(t.c.calls[|c.calls|..]) +
                   ((if t.c.state == Boundary then Delimiter(boundary) else "") + t.c.buf))
  }

  lemma AccountedBefore(c: Config, n: nat, t: Turn, boundary: string)
    requires n <= |c.buf| && Accounted(Erase(HandOn(c, n), n), t, boundary)
    ensures Accounted(c, t, boundary)
  {
    var c2 := Erase(HandOn(c, n), n);
    var later := t.c.calls[|c2.calls|..];
    assert t.c.calls[..|c2.calls|][..|c.calls|] == c.calls;
    assert t.c.calls[|c.calls|] == t.c.calls[..|c2.calls|][|c.calls|] == ContentCall(c.buf[..n]);
    assert t.c.calls[|c.calls|..] == [ContentCall(c.buf[..n])] + later;
    assert c.buf == c.buf[..n] + c2.buf;
  }

  /** In the body state every byte taken off the window was handed to the content callback or belongs to
      the delimiter, whatever the callbacks answer. */
  lemma BodyBytesAccounted(c: Config, boundary: string, answer: Callbacks)
    requires c.state == Body
    ensures Accounted(c, BodyTurn(c, boundary, answer), boundary)
  {
    var t := BodyTurn(c, boundary, answer);
    var dash := CRLF + "--";
    if |dash| <= |c.buf| {
      var pos := Find(c.buf, dash);
      if answer(HandOn(c, pos).calls) {
        DelimiterBytesAccounted(Erase(HandOn(c, pos), pos), boundary, answer);
        AccountedBefore(c, pos, t, boundary);
      }
    } else {
      assert t.c.calls[|c.calls|..] == [];
    }
  }

  lemma DelimiterBytesAccounted(c: Config, boundary: string, answer: Callbacks)
    requires c.state == Body
    ensures Accounted(c, DelimiterTurn(c, boundary, answer), boundary)
  {
    var t := DelimiterTurn(c, boundary, answer);
    var delimiter := Delimiter(boundary);
    if |delimiter| <= |c.buf| {
      var pos := Find(c.buf, delimiter);
      var n := if pos < |c.buf| then pos else |delimiter|;
      if answer(HandOn(c, n).calls) {
        var c2 := Erase(HandOn(c, n), n);
        assert t.c.calls[|c2.calls|..] == [];
        if pos < |c.buf| { assert c2.buf == delimiter + t.c.buf; }
        AccountedBefore(c, n, t, boundary);
      }
    } else {
      assert t.c.calls[|c.calls|..] == [];
    }
  }

  // ---- What a run keeps back -----------------------------------------------------------------------

  /** In the body state the last `m` bytes seen are still in the window, unless the open part began later. */
  ghost predicate Keeps(c: Config, m: nat) {
    c.state == Body ==> PartsOf(c.calls) != [] && (|c.buf| >= m || |Handed(c)| + |c.buf| < m)
  }

  const DASH := CRLF + "--"

  /** Dashes begin `m` bytes before the end of `s` and nowhere in the `d - 1` bytes before that. */
  ghost predicate LoneDash(s: string, m: nat, d: nat) {
    m <= |s| ==> At(s, DASH, |s| - m) && forall p :: |s| - m - d < p < |s| - m ==> !At(s, DASH, p)
  }

  lemma LoneDashSuffix(t: string, s: string, m: nat, d: nat)
    requires Suffix(t, s) && LoneDash(s, m, d)
    ensures LoneDash(t, m, d)
  {
    var k := |s| - |t|;
    assert s == s[..k] + t;
    if m <= |t| {
      AtSuffix(s[..k], t, DASH, |t| - m);
      forall p | |t| - m - d < p < |t| - m ensures !At(t, DASH, p) {
        if p >= 0 { AtSuffix(s[..k], t, DASH, p); }
      }
    }
  }

  lemma {:induction false} HeadersOpenPart(c: Config)
    requires c.state == Headers
    ensures var t := HeaderLines(c, ACCEPT);
            if t.Again? then t.c.state == Body && PartsOf(t.c.calls) != [] && Handed(t.c) == ""
            else t.c.state == Headers
    decreases |c.buf|
  {
    hide Find, ReadHeaderLine;
    var pos := Find(c.buf, CRLF);
    if pos == 0 && c.buf != "" {
      PartsOfSnoc(c.calls, HeaderCall(c.file));
    } else if pos < |c.buf| {
      HeadersOpenPart(LineTaken(c, pos));
    }
  }

  lemma HandOnMoves(c: Config, n: nat)
    requires c.state == Body && PartsOf(c.calls) != [] && n <= |c.buf|
    ensures var c' := Erase(HandOn(c, n), n);
            PartsOf(c'.calls) != [] && |Handed(c')| + |c'.buf| == |Handed(c)| + |c.buf| && |c'.buf| == |c.buf| - n
  {
    PartsOfSnoc(c.calls, ContentCall(c.buf[..n]));
  }

  /** A false alarm does not swallow dashes with none close before them. */
  lemma DelimiterKeeps(c: Config, m: nat, boundary: string)
    requires c.state == Body && Keeps(c, m) && LoneDash(c.buf, m, |Delimiter(boundary)|)
    requires m < |Delimiter(boundary)| && (|c.buf| >= 4 ==> At(c.buf, DASH, 0) || |c.buf| < m)
    ensures Keeps(DelimiterTurn(c, boundary, ACCEPT).c, m)
  {
    hide Find, Delimiter, PartsOf, Handed;
    var delimiter := Delimiter(boundary);
    if |delimiter| <= |c.buf| {
      var pos := Find(c.buf, delimiter);
      if pos == |c.buf| { HandOnMoves(c, |delimiter|); }
    }
  }

  lemma BodyKeeps(c: Config, m: nat, boundary: string)
    requires c.state == Body && Keeps(c, m) && LoneDash(c.buf, m, |Delimiter(boundary)|)
    requires 4 <= m < |Delimiter(boundary)|
    ensures Keeps(BodyTurn(c, boundary, ACCEPT).c, m)
  {
    hide PartsOf, Handed, DelimiterTurn, LoneDash;
    if |DASH| <= |c.buf| {
      var pos := Find(c.buf, DASH);
      var c' := Erase(HandOn(c, pos), pos);
      HandOnMoves(c, pos);
      ErasedSuffix(c, pos);
      LoneDashSuffix(c'.buf, c.buf, m, |Delimiter(boundary)|);
      DashAtFront(c.buf, m, |Delimiter(boundary)|);
      DelimiterKeeps(c', m, boundary);
    }
  }

  /** Up to the first dashes nothing of the last `m` bytes is taken, and what is left begins with dashes. */
  lemma DashAtFront(s: string, m: nat, d: nat)
    requires LoneDash(s, m, d) && 4 <= m
    ensures var pos := Find(s, DASH);
            (m <= |s| ==> pos <= |s| - m) && (|s[pos..]| >= 4 ==> At(s[pos..], DASH, 0))
  {
    var pos := Find(s, DASH);
    if pos < |s| { assert s[pos..][0..4] == s[pos..pos + 4]; }
  }

  lemma TurnKeeps(c: Config, m: nat, boundary: string)
    requires c.buf != "" && Keeps(c, m) && LoneDash(c.buf, m, |Delimiter(boundary)|)
    requires 4 <= m < |Delimiter(boundary)|
    ensures Keeps(SwitchTurn(c, boundary, ACCEPT).c, m)
  {
    hide PartsOf, Handed, LoneDash, BodyTurn, HeaderLines, Find, Delimiter;
    match c.state
    case Headers => HeadersOpenPart(c);
    case Body => BodyKeeps(c, m, boundary);
    case _ =>
  }

  lemma {:induction false} RunKeeps(c: Config, m: nat, boundary: string)
    requires Keeps(c, m) && LoneDash(c.buf, m, |Delimiter(boundary)|) && 4 <= m < |Delimiter(boundary)|
    ensures Keeps(Run(c, boundary, ACCEPT).0, m)
    decreases |c.buf|, if c.state == NewEntry then 1 else 0
  {
    hide SwitchTurn, Keeps, LoneDash, Delimiter, Suffix, At;
    if c.buf != "" {
      TurnKeeps(c, m, boundary);
      TurnSuffix(c, boundary, ACCEPT);
      var t := SwitchTurn(c, boundary, ACCEPT);
      LoneDashSuffix(t.c.buf, c.buf, m, |Delimiter(boundary)|);
      if t.Again? { RunKeeps(t.c, m, boundary); }
    }
  }

  // ---- Cuts inside a delimiter ------------------------------------------------------------------

  /** Where the input is cut after `j` pieces. */
  function Cut(pieces: seq<string>, j: nat): nat
    requires j <= |pieces|
  {
    |Join(pieces[..j])|
  }

  /** A cut inside the delimiter at `i` that falls after its second dash, with no dashes so close before the
      delimiter that their false alarm could swallow it. */
  ghost predicate SafeCut(text: string, i: int, cut: nat, boundary: string) {
    i + 4 <= cut && forall p :: i - |Delimiter(boundary)| < p < i ==> !At(text, DASH, p)
  }

  /** Every cut of the input is outside all delimiters or safe. */
  ghost predicate CutsSafe(pieces: seq<string>, boundary: string) {
    forall j, i :: 0 <= j <= |pieces| && At(Join(pieces), Delimiter(boundary), i) &&
                   i < Cut(pieces, j) < i + |Delimiter(boundary)| ==>
                     SafeCut(Join(pieces), i, Cut(pieces, j), boundary)
  }

  // ---- Runs in pieces keep the start of a cut delimiter back --------------------------------------

  predicate HasParts(c: Config) { c.state == Body ==> PartsOf(c.calls) != [] }

  lemma TurnHasParts(c: Config, boundary: string)
    requires c.buf != "" && HasParts(c)
    ensures HasParts(SwitchTurn(c, boundary, ACCEPT).c)
  {
    hide PartsOf, HeaderLines, Find;
    match c.state
    case Headers => HeadersOpenPart(c);
    case Body =>
      if |DASH| <= |c.buf| {
        var pos := Find(c.buf, DASH);
        var c' := Erase(HandOn(c, pos), pos);
        HandOnMoves(c, pos);
        if |Delimiter(boundary)| <= |c'.buf| { HandOnMoves(c', |Delimiter(boundary)|); }
      }
    case _ =>
  }

  lemma {:induction false} RunHasParts(c: Config, boundary: string)
    requires HasParts(c)
    ensures HasParts(Run(c, boundary, ACCEPT).0)
    decreases |c.buf|, if c.state == NewEntry then 1 else 0
  {
    hide SwitchTurn, HasParts;
    if c.buf != "" {
      TurnHasParts(c, boundary);
      var t := SwitchTurn(c, boundary, ACCEPT);
      if t.Again? { RunHasParts(t.c, boundary); }
    }
  }

  lemma {:induction false} AllHaveParts(pieces: seq<string>, boundary: string)
    ensures HasParts(ParseAll(pieces, boundary, ACCEPT).0)
    decreases |pieces|
  {
    hide Run;
    if pieces != [] {
      var before := ParseAll(pieces[..|pieces| - 1], boundary, ACCEPT).0;
      AllHaveParts(pieces[..|pieces| - 1], boundary);
      RunHasParts(before.(buf := before.buf + pieces[|pieces| - 1]), boundary);
    }
  }

  lemma {:induction false} CutInit(pieces: seq<string>, j: nat)
    requires pieces != [] && j < |pieces|
    ensures Cut(pieces[..|pieces| - 1], j) == Cut(pieces, j) && Cut(pieces, |pieces|) == |Join(pieces)|
  {
    assert pieces[..|pieces| - 1][..j] == pieces[..j] && pieces[..|pieces|] == pieces;
  }

  /** The bytes before the cut, seen as the end of what was seen so far, end with lone dashes. */
  lemma CutShowsDashes(text: string, rest: string, i: nat, boundary: string)
    requires At(text + rest, Delimiter(boundary), i) && i < |text| && SafeCut(text + rest, i, |text|, boundary)
    ensures LoneDash(text, |text| - i, |Delimiter(boundary)|)
  {
    hide Contains;
    var delimiter := Delimiter(boundary);
    var d := |delimiter|;
    assert text[i..i + 4] == (text + rest)[i..i + d][..4] == delimiter[..4] == DASH;
    forall p | i - d < p < i ensures !At(text, DASH, p) {
      if p >= 0 { AtPrefix(text, rest, DASH, p); }
    }
  }

  lemma MoreIsKept(c: Config, data: string, m: nat)
    requires HasParts(c) && (m <= |data| || Keeps(c, m - |data|))
    ensures Keeps(c.(buf := c.buf + data), m)
  {
  }

  /** A delimiter that is cut, but only safely, is kept in the window from its start on, if the body it
      ends has begun. */
  lemma {:induction false} KeptBack(pieces: seq<string>, rest: string, i: nat, boundary: string)
    requires At(Join(pieces) + rest, Delimiter(boundary), i)
    requires i < |Join(pieces)| < i + |Delimiter(boundary)|
    requires forall j :: 0 <= j <= |pieces| && i < Cut(pieces, j) < i + |Delimiter(boundary)| ==>
                           SafeCut(Join(pieces) + rest, i, Cut(pieces, j), boundary)
    ensures Keeps(ParseAll(pieces, boundary, ACCEPT).0, |Join(pieces)| - i)
    decreases |pieces|
  {
    hide Run, Delimiter, SafeCut, LoneDash, Cut, PartsOf, Handed;
    var init, data := pieces[..|pieces| - 1], pieces[|pieces| - 1];
    var seen, m := Join(init), |Join(pieces)| - i;
    var before := ParseAll(init, boundary, ACCEPT).0;
    var c := before.(buf := before.buf + data);
    Assoc(seen, data, rest);
    CutInit(pieces, 0);
    assert SafeCut(Join(pieces) + rest, i, Cut(pieces, |pieces|), boundary);
    SafeCutIsLate(Join(pieces) + rest, i, |Join(pieces)|, boundary);
    CutShowsDashes(Join(pieces), rest, i, boundary);
    WindowIsSuffix(init, boundary, ACCEPT);
    SuffixExtends(before.buf, seen, data);
    LoneDashSuffix(c.buf, Join(pieces), m, |Delimiter(boundary)|);
    AllHaveParts(init, boundary);
    if i < |seen| {
      forall j | 0 <= j <= |init| && i < Cut(init, j) < i + |Delimiter(boundary)|
        ensures SafeCut(seen + (data + rest), i, Cut(init, j), boundary)
      {
        CutInit(pieces, j);
      }
      KeptBack(init, data + rest, i, boundary);
    }
    MoreIsKept(before, data, m);
    hide Keeps;
    RunKeeps(c, m, boundary);
  }

  lemma SafeCutIsLate(text: string, i: nat, cut: nat, boundary: string)
    requires SafeCut(text, i, cut, boundary)
    ensures i + 4 <= cut
  {
  }
}
