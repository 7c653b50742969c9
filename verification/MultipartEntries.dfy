/** `multipart/form-data` bodies with any header lines, and what one `parse` makes of them: which
    parts come out, from which lines, and when the call fails. */
module MultipartEntries {
  import opened Bytes
  import opened Text
  import opened Multipart
  import opened MultipartStream
  import opened MultipartRefinement
  import opened MultipartIncremental
  import opened MultipartWindow
  import opened MultipartCallbacks

  /** An entry as it stands in a body: header lines without their line ends, and the content. */
  datatype Entry = Entry(lines: seq<string>, content: string)

  function LinesText(lines: seq<string>): string {
    if lines == [] then "" else lines[0] + CRLF + LinesText(lines[1..])
  }

  /** An entry up to and including the delimiter that closes it, and what comes after. */
  function EntryText(e: Entry, after: string, boundary: string): string {
    LinesText(e.lines) + (CRLF + (e.content + Delimiter(boundary) + after))
  }

  /** The entries after the opening line, to the end of the body. */
  function EntriesText(entries: seq<Entry>, boundary: string): string
    requires entries != []
  {
    EntryText(entries[0], if |entries| == 1 then FINAL else CRLF + EntriesText(entries[1..], boundary), boundary)
  }

  function BodyText(entries: seq<Entry>, boundary: string): string
    requires entries != []
  {
    Opening(boundary) + EntriesText(entries, boundary)
  }

  ghost predicate LineOk(line: string) { line != "" && !Contains(line, CRLF) }

  ghost predicate EntryOk(e: Entry, boundary: string) {
    (forall i :: 0 <= i < |e.lines| ==> LineOk(e.lines[i])) && !Contains(e.content, Delimiter(boundary))
  }

  ghost predicate AllOk(entries: seq<Entry>, boundary: string) {
    entries != [] && '\r' !in boundary && forall i :: 0 <= i < |entries| ==> EntryOk(entries[i], boundary)
  }

  /** The name, filename and content type after these header lines. */
  function FileAfter(file: FileInfo, lines: seq<string>): FileInfo
    decreases |lines|
  {
    if lines == [] then file else FileAfter(ReadHeaderLine(file, lines[0]), lines[1..])
  }

  function PartOf(e: Entry): Part { Part(FileAfter(NO_FILE, e.lines), e.content) }

  function PartsFor(entries: seq<Entry>): seq<Part> {
    if entries == [] then [] else [PartOf(entries[0])] + PartsFor(entries[1..])
  }

  /** The first header line, if any, is within the limit; it is the only one that is measured. */
  predicate FirstFits(lines: seq<string>) { lines != [] ==> |lines[0]| <= 8192 }

  predicate FirstLinesFit(entries: seq<Entry>) {
    forall i :: 0 <= i < |entries| ==> FirstFits(entries[i].lines)
  }

  predicate Short(lines: seq<string>) { forall i :: 0 <= i < |lines| ==> |lines[i]| < HEADER_MAX_LENGTH }

  // ---- One entry ------------------------------------------------------------------------------

  lemma {:induction false} LineStep(d: Doc, line: string, rest: string, boundary: string, entering: bool)
    requires d.state == Headers && d.rest == line + CRLF + rest && LineOk(line)
    ensures var d' := d.(file := ReadHeaderLine(d.file, line), rest := rest);
            Settle(d, boundary) == Settle(d', boundary) &&
            (LinesFit(d, boundary, entering) <==>
             (entering ==> |line| <= HEADER_MAX_LENGTH) && LinesFit(d', boundary, false)) &&
            (LinesShort(d, boundary) <==> |line| < HEADER_MAX_LENGTH && LinesShort(d', boundary))
  {
    NoOverlap(line, CRLF, rest);
    FindAfter(line, CRLF, rest);
    assert d.rest[..|line|] == line && d.rest[|line| + 2..] == rest;
    assert Step(d, boundary) == d.(file := ReadHeaderLine(d.file, line), rest := rest);
  }

  lemma {:induction false} BlankLineStep(d: Doc, text: string, boundary: string, entering: bool)
    requires d.state == Headers && d.rest == CRLF + text
    ensures var d' := Doc(Body, d.file, d.parts + [Part(d.file, text)], "");
            Settle(d, boundary) == Settle(d', boundary) &&
            LinesFit(d, boundary, entering) == LinesFit(d', boundary, true) &&
            LinesShort(d, boundary) == LinesShort(d', boundary)
  {
    FindAfter("", CRLF, text);
    assert "" + CRLF + text == d.rest && d.rest[2..] == text;
    assert Step(d, boundary) == Doc(Body, d.file, d.parts + [Part(d.file, text)], "");
    NotMeasured(Doc(Body, d.file, d.parts + [Part(d.file, text)], ""), boundary);
  }

  lemma {:induction false} NotMeasured(d: Doc, boundary: string)
    requires WellFormed(d) && d.state != Headers
    ensures LinesFit(d, boundary, false) == LinesFit(d, boundary, true)
  {
  }

  /** A header section, whatever its lines say. */
  lemma {:induction false} LinesSettle(d: Doc, lines: seq<string>, text: string, boundary: string, entering: bool)
    requires d.state == Headers && d.rest == LinesText(lines) + (CRLF + text)
    requires forall i :: 0 <= i < |lines| ==> LineOk(lines[i])
    ensures var file := FileAfter(d.file, lines);
            var d' := Doc(Body, file, d.parts + [Part(file, text)], "");
            Settle(d, boundary) == Settle(d', boundary) &&
            (LinesFit(d, boundary, entering) <==> (entering ==> FirstFits(lines)) && LinesFit(d', boundary, true)) &&
            (LinesShort(d, boundary) <==> Short(lines) && LinesShort(d', boundary))
    decreases |lines|
  {
    hide Settle, LinesFit, LinesShort, ReadHeaderLine, LineOk;
    if lines == [] {
      assert d.rest == CRLF + text;
      BlankLineStep(d, text, boundary, entering);
    } else {
      var line, later := lines[0], lines[1..];
      var rest := LinesText(later) + (CRLF + text);
      Assoc(line + CRLF, LinesText(later), CRLF + text);
      LineStep(d, line, rest, boundary, entering);
      LinesSettle(d.(file := ReadHeaderLine(d.file, line), rest := rest), later, text, boundary, false);
      ShortCons(lines);
    }
  }

  lemma ShortCons(lines: seq<string>)
    requires lines != []
    ensures Short(lines) <==> |lines[0]| < HEADER_MAX_LENGTH && Short(lines[1..])
  {
    assert forall i :: 0 < i < |lines| ==> lines[i] == lines[1..][i - 1];
  }

  /** Content free of the delimiter is read whole. The delimiter has no border: its first byte is its only
      carriage return. */
  lemma {:induction false} ContentStep(
    file: FileInfo, parts: seq<Part>, content: string, after: string, boundary: string)
    requires '\r' !in boundary && !Contains(content, Delimiter(boundary))
    ensures var d := Doc(Body, file, parts + [Part(file, content + Delimiter(boundary) + after)], "");
            var d' := Doc(Boundary, file, parts + [Part(file, content)], after);
            Settle(d, boundary) == Settle(d', boundary) &&
            LinesFit(d, boundary, true) == LinesFit(d', boundary, true) &&
            LinesShort(d, boundary) == LinesShort(d', boundary)
  {
    var delimiter := Delimiter(boundary);
    var text := content + delimiter + after;
    var d := Doc(Body, file, parts + [Part(file, text)], "");
    NoOverlap(content, delimiter, after);
    FindAfter(content, delimiter, after);
    assert text[..|content|] == content && text[|content| + |delimiter|..] == after;
    assert d.parts[..|d.parts| - 1] == parts;
    assert Step(d, boundary) == Doc(Boundary, file, parts + [Part(file, content)], after);
  }

  lemma {:induction false} NewEntryStep(d: Doc, boundary: string)
    requires d.state == NewEntry && d.rest != ""
    ensures var d' := d.(state := Headers, file := NO_FILE);
            Settle(d, boundary) == Settle(d', boundary) &&
            LinesFit(d, boundary, true) == LinesFit(d', boundary, true) &&
            LinesShort(d, boundary) == LinesShort(d', boundary)
  {
    assert Step(d, boundary) == d.(state := Headers, file := NO_FILE);
  }

  /** One entry, up to and including its closing delimiter, becomes one part. */
  lemma {:induction false} EntrySettles(file: FileInfo, parts: seq<Part>, e: Entry, after: string, boundary: string)
    requires '\r' !in boundary && EntryOk(e, boundary)
    ensures var d := Doc(NewEntry, file, parts, EntryText(e, after, boundary));
            var d' := Doc(Boundary, PartOf(e).file, parts + [PartOf(e)], after);
            && Settle(d, boundary) == Settle(d', boundary)
            && (LinesFit(d, boundary, true) <==> FirstFits(e.lines) && LinesFit(d', boundary, true))
            && (LinesShort(d, boundary) <==> Short(e.lines) && LinesShort(d', boundary))
  {
    hide Settle, LinesFit, LinesShort, Step, FileAfter, Contains, LinesText, Delimiter, Short, FirstFits, LineOk;
    var text := e.content + Delimiter(boundary) + after;
    var d := Doc(NewEntry, file, parts, EntryText(e, after, boundary));
    NewEntryStep(d, boundary);
    LinesSettle(Doc(Headers, NO_FILE, parts, d.rest), e.lines, text, boundary, true);
    ContentStep(PartOf(e).file, parts, e.content, after, boundary);
  }

  // ---- A whole body ---------------------------------------------------------------------------

  lemma {:induction false} BoundaryStep(d: Doc, boundary: string)
    requires d.state == Boundary
    ensures d.rest == FINAL ==>
              Settle(d, boundary) == d.(state := State.Done, rest := "") &&
              LinesFit(d, boundary, true) && LinesShort(d, boundary)
    ensures forall after :: d.rest == CRLF + after ==>
              Settle(d, boundary) == Settle(d.(state := NewEntry, rest := after), boundary) &&
              LinesFit(d, boundary, true) == LinesFit(d.(state := NewEntry, rest := after), boundary, true) &&
              LinesShort(d, boundary) == LinesShort(d.(state := NewEntry, rest := after), boundary)
  {
    if d.rest == FINAL {
      assert d.rest[0] == '-';
      assert FINAL[4..] == "";
    }
    forall after | d.rest == CRLF + after
      ensures Settle(d, boundary) == Settle(d.(state := NewEntry, rest := after), boundary)
      ensures LinesFit(d, boundary, true) == LinesFit(d.(state := NewEntry, rest := after), boundary, true)
      ensures LinesShort(d, boundary) == LinesShort(d.(state := NewEntry, rest := after), boundary)
    {
      assert d.rest[2..] == after;
    }
  }

  /** The document after the first entry: done, or at the next entry. */
  function AfterFirst(parts: seq<Part>, entries: seq<Entry>, boundary: string): (d: Doc)
    requires entries != []
    ensures WellFormed(d)
  {
    var parts' := parts + [PartOf(entries[0])];
    if |entries| == 1 then Doc(State.Done, PartOf(entries[0]).file, parts', "")
    else Doc(NewEntry, PartOf(entries[0]).file, parts', EntriesText(entries[1..], boundary))
  }

  lemma {:induction false} DoneIsSettled(d: Doc, boundary: string)
    requires d.state == State.Done
    ensures Settle(d, boundary) == d && LinesFit(d, boundary, true) && LinesShort(d, boundary)
  {
  }

  lemma {:induction false} FirstEntry(file: FileInfo, parts: seq<Part>, entries: seq<Entry>, boundary: string)
    requires AllOk(entries, boundary)
    ensures var d := Doc(NewEntry, file, parts, EntriesText(entries, boundary));
            var d' := AfterFirst(parts, entries, boundary);
            && Settle(d, boundary) == Settle(d', boundary)
            && (LinesFit(d, boundary, true) <==> FirstFits(entries[0].lines) && LinesFit(d', boundary, true))
            && (LinesShort(d, boundary) <==> Short(entries[0].lines) && LinesShort(d', boundary))
  {
    hide Settle, LinesFit, LinesShort, FirstFits, Short, EntryOk, PartOf, EntryText;
    var after := if |entries| == 1 then FINAL else CRLF + EntriesText(entries[1..], boundary);
    EntrySettles(file, parts, entries[0], after, boundary);
    var d := Doc(Boundary, PartOf(entries[0]).file, parts + [PartOf(entries[0])], after);
    BoundaryStep(d, boundary);
    if |entries| == 1 { DoneIsSettled(d.(state := State.Done, rest := ""), boundary); }
  }

  lemma FirstLinesCons(entries: seq<Entry>)
    requires entries != []
    ensures FirstLinesFit(entries) <==> FirstFits(entries[0].lines) && FirstLinesFit(entries[1..])
  {
    assert forall i :: 0 < i < |entries| ==> entries[i] == entries[1..][i - 1];
  }

  lemma {:induction false} EntriesSettle(file: FileInfo, parts: seq<Part>, entries: seq<Entry>, boundary: string)
    requires AllOk(entries, boundary)
    ensures var d := Doc(NewEntry, file, parts, EntriesText(entries, boundary));
            var d' := Doc(State.Done, PartOf(entries[|entries| - 1]).file, parts + PartsFor(entries), "");
            && Settle(d, boundary) == d'
            && LinesFit(d, boundary, true) == FirstLinesFit(entries)
            && (LinesShort(d, boundary) <==> forall i :: 0 <= i < |entries| ==> Short(entries[i].lines))
    decreases |entries|
  {
    hide Settle, LinesFit, LinesShort, FirstFits, FirstLinesFit, Short, EntriesText, PartOf, EntryOk;
    FirstEntry(file, parts, entries, boundary);
    FirstLinesCons(entries);
    var rest := entries[1..];
    assert parts + [PartOf(entries[0])] + PartsFor(rest) == parts + PartsFor(entries);
    if rest == [] {
      DoneIsSettled(AfterFirst(parts, entries, boundary), boundary);
      assert PartsFor(rest) == [] && parts + [PartOf(entries[0])] + [] == parts + [PartOf(entries[0])];
      NoneLeft();
    } else {
      EntriesSettle(PartOf(entries[0]).file, parts + [PartOf(entries[0])], rest, boundary);
      assert forall i :: 0 < i < |entries| ==> entries[i] == rest[i - 1];
    }
  }

  lemma NoneLeft()
    ensures FirstLinesFit([])
  {
  }

  /** The opening line is taken off. */
  lemma {:induction false} OpeningStep(more: string, boundary: string)
    ensures var d := Extend(START, Opening(boundary) + more);
            var d' := Doc(NewEntry, NO_FILE, [], more);
            Settle(d, boundary) == Settle(d', boundary) &&
            LinesFit(d, boundary, true) == LinesFit(d', boundary, true) &&
            LinesShort(d, boundary) == LinesShort(d', boundary)
  {
    var text := Opening(boundary) + more;
    assert "" + text == text;
    assert text[|Opening(boundary)|..] == more;
    assert At(text, Opening(boundary), 0);
    assert Step(Extend(START, text), boundary) == Doc(NewEntry, NO_FILE, [], more);
  }

  lemma {:induction false} BodySettles(entries: seq<Entry>, boundary: string)
    requires AllOk(entries, boundary)
    ensures var d := Extend(START, BodyText(entries, boundary));
            && Settle(d, boundary) == Doc(State.Done, PartOf(entries[|entries| - 1]).file, PartsFor(entries), "")
            && LinesFit(d, boundary, true) == FirstLinesFit(entries)
            && (LinesShort(d, boundary) <==> forall i :: 0 <= i < |entries| ==> Short(entries[i].lines))
  {
    hide Settle, LinesFit, LinesShort, EntriesText, PartOf, FirstLinesFit, PartsFor, EntryOk, Opening, Short, Extend;
    OpeningStep(EntriesText(entries, boundary), boundary);
    EntriesSettle(NO_FILE, [], entries, boundary);
    assert [] + PartsFor(entries) == PartsFor(entries);
  }

  lemma {:induction false} AcceptingBody(entries: seq<Entry>, boundary: string)
    requires AllOk(entries, boundary)
    ensures var (c, ok) := Multipart.Parse(INITIAL, BodyText(entries, boundary), boundary, ACCEPT);
            && ok == c.valid == FirstLinesFit(entries)
            && (c.valid ==> c.buf == "" && PartsOf(c.calls) == PartsFor(entries))
  {
    var text := BodyText(entries, boundary);
    assert "" + text == text;
    var c := INITIAL.(buf := "" + text);
    assert Ready(c, boundary) && Abs(c) == Extend(START, text);
    hide Settle, LinesFit, BodyText, PartOf, Run, FirstLinesFit, PartsFor, EntryOk, Extend, PartsOf, Ready;
    BodySettles(entries, boundary);
    AcceptingRunSettles(c, boundary);
  }

  /** A body of any entries, with any header lines, fed in one call: it ends valid with one part for each
      entry, in order, exactly when the first header line of every entry is within the limit; past it
      the call fails and the parser is not valid. The callbacks may be any that refuse nothing. */
  lemma {:induction false} OneCall(entries: seq<Entry>, boundary: string, answer: Callbacks)
    requires AllOk(entries, boundary)
    requires Accepted(answer, Multipart.Parse(INITIAL, BodyText(entries, boundary), boundary, answer).0.calls, 0)
    ensures var (c, ok) := Multipart.Parse(INITIAL, BodyText(entries, boundary), boundary, answer);
            && ok == c.valid == FirstLinesFit(entries)
            && (c.valid ==> c.buf == "" && PartsOf(c.calls) == PartsFor(entries))
  {
    hide Run, BodyText, EntryOk, FirstLinesFit, PartsFor, PartsOf;
    UnrefusedRun(INITIAL.(buf := "" + BodyText(entries, boundary)), boundary, answer);
    AcceptingBody(entries, boundary);
  }

  /** The same parts for any cut into calls outside delimiters or safely inside them, with short lines. */
  lemma {:induction false} InPieces(entries: seq<Entry>, pieces: seq<string>, boundary: string, answer: Callbacks)
    requires AllOk(entries, boundary) && forall i :: 0 <= i < |entries| ==> Short(entries[i].lines)
    requires Join(pieces) == BodyText(entries, boundary) && CutsSafe(pieces, boundary)
    requires Accepted(answer, ParseAll(pieces, boundary, answer).0.calls, 0)
    ensures var (c, ok) := ParseAll(pieces, boundary, answer);
            ok && c.valid && c.buf == "" && PartsOf(c.calls) == PartsFor(entries)
  {
    hide Settle, LinesShort, LinesFit, BodyText, PartOf, ParseAll, CutsSafe, FirstLinesFit, EntryOk, Short, Extend;
    BodySettles(entries, boundary);
    PiecesDocument(pieces, boundary, answer);
  }

  // ---- Nothing else is valid --------------------------------------------------------------------

  predicate EndsComplete(d: Doc, boundary: string)
    requires WellFormed(d)
  {
    Complete(Settle(d, boundary))
  }

  lemma {:induction false} EndsBySteps(d: Doc, boundary: string)
    requires WellFormed(d) && EndsComplete(d, boundary)
    ensures d.state != State.Done ==>
              CanStep(d, boundary) && EndsComplete(Step(d, boundary), boundary)
    ensures d.state == State.Done ==> d.rest == ""
  {
    hide CanStep;
    if d.state != State.Done { MustStep(d, boundary); } else { DoneIsSettled(d, boundary); }
  }

  lemma {:induction false} MustStep(d: Doc, boundary: string)
    requires WellFormed(d) && EndsComplete(d, boundary) && d.state != State.Done
    ensures CanStep(d, boundary)
  {
    hide CanStep;
  }

  lemma FirstPartClean(s: string, p: string)
    requires p != "" && Find(s, p) < |s|
    ensures var pos := Find(s, p);
            pos + |p| <= |s| && !Contains(s[..pos], p) && s == s[..pos] + p + s[pos + |p|..]
  {
    var pos := Find(s, p);
    forall i ensures !At(s[..pos], p, i) {
      if 0 <= i && i + |p| <= pos { AtPrefix(s[..pos], s[pos..], p, i); assert s[..pos] + s[pos..] == s; }
    }
    assert s[pos..pos + |p|] == p;
  }

  /** A body state that comes to the end holds content and a delimiter. */
  lemma {:induction false} BodyComes(d: Doc, boundary: string) returns (content: string, after: Doc)
    requires WellFormed(d) && d.state == Body && EndsComplete(d, boundary)
    ensures after.state == Boundary && EndsComplete(after, boundary) && |after.rest| < |Unsettled(d)|
    ensures !Contains(content, Delimiter(boundary))
    ensures Unsettled(d) == content + Delimiter(boundary) + after.rest
  {
    hide Settle, Find;
    EndsBySteps(d, boundary);
    FirstPartClean(Unsettled(d), Delimiter(boundary));
    after := Step(d, boundary);
    content := Unsettled(d)[..Find(Unsettled(d), Delimiter(boundary))];
  }

  lemma {:induction false} HeadersCome(d: Doc, boundary: string) returns (e: Entry, after: Doc)
    requires d.state == Headers && EndsComplete(d, boundary)
    ensures after.state == Boundary && EndsComplete(after, boundary) && |after.rest| < |d.rest|
    ensures EntryOk(e, boundary) && d.rest == EntryText(e, after.rest, boundary)
    decreases |d.rest|
  {
    hide Settle, Find, Contains, EndsComplete;
    EndsBySteps(d, boundary);
    FirstPartClean(d.rest, CRLF);
    var pos := Find(d.rest, CRLF);
    var next := Step(d, boundary);
    if pos == 0 {
      var content;
      content, after := BodyComes(next, boundary);
      e := Entry([], content);
      assert d.rest == CRLF + (content + Delimiter(boundary) + after.rest);
      assert EntryText(e, after.rest, boundary) == "" + (CRLF + (content + Delimiter(boundary) + after.rest));
    } else {
      var later;
      later, after := HeadersCome(next, boundary);
      var line := d.rest[..pos];
      e := Entry([line] + later.lines, later.content);
      OneMoreLine(line, later, after.rest, boundary);
      assert d.rest == line + CRLF + next.rest;
    }
  }

  lemma {:induction false} OneMoreLine(line: string, e: Entry, after: string, boundary: string)
    requires LineOk(line) && EntryOk(e, boundary)
    ensures var e' := Entry([line] + e.lines, e.content);
            EntryOk(e', boundary) && EntryText(e', after, boundary) == line + CRLF + EntryText(e, after, boundary)
  {
    hide LineOk, Contains, Delimiter;
    var lines := [line] + e.lines;
    assert lines[1..] == e.lines;
    Assoc(line + CRLF, LinesText(e.lines), CRLF + (e.content + Delimiter(boundary) + after));
  }

  lemma {:induction false} EntriesCome(d: Doc, boundary: string) returns (entries: seq<Entry>)
    requires d.state == NewEntry && EndsComplete(d, boundary)
    ensures entries != [] && forall i :: 0 <= i < |entries| ==> EntryOk(entries[i], boundary)
    ensures d.rest == EntriesText(entries, boundary)
    decreases |d.rest|
  {
    EndsBySteps(d, boundary);
    hide Settle, Find, EntryText, EntryOk, EndsComplete;
    var e, after := HeadersCome(Step(d, boundary), boundary);
    EndsBySteps(after, boundary);
    var next := Step(after, boundary);
    if next.state == State.Done {
      EndsBySteps(next, boundary);
      assert after.rest == FINAL + next.rest == FINAL;
      entries := [e];
    } else {
      assert after.rest == CRLF + next.rest;
      var later := EntriesCome(next, boundary);
      entries := [e] + later;
      assert entries[1..] == later;
    }
  }

  lemma {:induction false} OpeningComes(d: Doc, boundary: string)
    requires d.state == InitialBoundary && CanStep(d, boundary)
    ensures Step(d, boundary).state == NewEntry && d.rest == Opening(boundary) + Step(d, boundary).rest
  {
    hide Opening;
    assert d.rest[..|Opening(boundary)|] == Opening(boundary);
  }

  lemma {:induction false} BodyComesWhole(input: string, boundary: string) returns (entries: seq<Entry>)
    requires EndsComplete(Extend(START, input), boundary) && '\r' !in boundary
    ensures AllOk(entries, boundary) && input == BodyText(entries, boundary)
  {
    var d := Extend(START, input);
    assert "" + input == input;
    assert d.state == InitialBoundary && d.rest == input;
    hide Settle, EntryOk, EndsComplete, CanStep, Step, EntriesText, Opening, Extend;
    EndsBySteps(d, boundary);
    OpeningComes(d, boundary);
    entries := EntriesCome(Step(d, boundary), boundary);
  }

  /** The parser accepts exactly the grammar: one call with the whole input ends valid exactly when the
      input is the body of some entries, the first header line of each within the limit. */
  lemma {:induction false} ValidExactly(input: string, boundary: string, answer: Callbacks)
    requires '\r' !in boundary
    requires Accepted(answer, Multipart.Parse(INITIAL, input, boundary, answer).0.calls, 0)
    ensures Multipart.Parse(INITIAL, input, boundary, answer).0.valid <==>
            exists entries :: AllOk(entries, boundary) && FirstLinesFit(entries) && input == BodyText(entries, boundary)
  {
    hide Run, EntryOk, FirstLinesFit, Settle, BodyText;
    forall entries | AllOk(entries, boundary) && input == BodyText(entries, boundary)
      ensures Multipart.Parse(INITIAL, input, boundary, answer).0.valid == FirstLinesFit(entries)
    {
      OneCall(entries, boundary, answer);
    }
    var c := Multipart.Parse(INITIAL, input, boundary, answer).0;
    assert "" + input == input;
    RunSettles(INITIAL.(buf := "" + input), boundary, answer);
    if c.valid {
      var entries := BodyComesWhole(input, boundary);
    }
  }
}
