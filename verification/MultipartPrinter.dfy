/** `ClientImpl::Post(path, headers, items, boundary)`: the printer of `multipart/form-data`, and its
    round trip through the parser. */
module MultipartPrinter {
  import opened Bytes
  import opened Text
  import opened Multipart
  import opened MultipartStream
  import opened MultipartRefinement
  import opened MultipartIncremental
  import opened MultipartWindow
  import opened MultipartCallbacks
  import E = MultipartEntries

  datatype Item = Item(name: string, content: string, filename: string, contentType: string)

  // ---- Printing -----------------------------------------------------------------------------

  predicate BoundaryChar(c: char) {
    '0' <= c <= '9' || 'A' <= c <= 'Z' || 'a' <= c <= 'z' || c == '-' || c == '_'
  }

  predicate BoundaryOk(boundary: string) { forall i :: 0 <= i < |boundary| ==> BoundaryChar(boundary[i]) }

  const NAME_INTRO := "Content-Disposition: form-data; name=\""
  const FILENAME_INTRO := "; filename=\""
  const TYPE_INTRO := "Content-Type: "

  function DispositionLine(item: Item): string {
    NAME_INTRO + (item.name + "\"" + (if item.filename == "" then "" else FILENAME_INTRO + (item.filename + "\"")))
  }

  function TypeLine(item: Item): string {
    if item.contentType == "" then "" else TYPE_INTRO + item.contentType + CRLF
  }

  /** The header lines and the blank line. */
  function Block(item: Item): string { DispositionLine(item) + CRLF + TypeLine(item) + CRLF }

  function Entry(item: Item, boundary: string): string {
    Opening(boundary) + (Block(item) + (item.content + CRLF))
  }

  function Entries(items: seq<Item>, boundary: string): string {
    if items == [] then "" else Entries(items[..|items| - 1], boundary) + Entry(items[|items| - 1], boundary)
  }

  function Print(items: seq<Item>, boundary: string): string {
    Entries(items, boundary) + ("--" + boundary + FINAL)
  }

  /** The character check, then one entry per item appended to the body. */
  method Post(items: seq<Item>, boundary: string) returns (body: Option<string>)
    ensures body == if BoundaryOk(boundary) then Some(Print(items, boundary)) else None
  {
    for i := 0 to |boundary|
      invariant forall k :: 0 <= k < i ==> BoundaryChar(boundary[k])
    {
      if !BoundaryChar(boundary[i]) { return None; }
    }
    var text := "";
    for i := 0 to |items|
      invariant text == Entries(items[..i], boundary)
    {
      assert items[..i + 1][..i] == items[..i];
      text := text + Entry(items[i], boundary);
    }
    assert items[..|items|] == items;
    return Some(text + ("--" + boundary + FINAL));
  }

  // ---- What may be sent ---------------------------------------------------------------------

  predicate QuotedOk(s: string) { '"' !in s && '\r' !in s && '\n' !in s }

  ghost predicate ItemOk(item: Item, boundary: string) {
    && QuotedOk(item.name) && QuotedOk(item.filename)
    && !Contains(item.contentType, CRLF) && NoOuterBlanks(item.contentType)
    && !Contains(item.content, Delimiter(boundary))
  }

  ghost predicate Sendable(items: seq<Item>, boundary: string) {
    && items != [] && BoundaryOk(boundary)
    && forall i :: 0 <= i < |items| ==> ItemOk(items[i], boundary)
  }

  function PartOf(item: Item): Part {
    Part(FileInfo(item.name, item.filename, item.contentType), item.content)
  }

  function PartsFor(items: seq<Item>): seq<Part> {
    if items == [] then [] else [PartOf(items[0])] + PartsFor(items[1..])
  }

  // ---- Reading one header line back -----------------------------------------------------------

  lemma EatWord(word: string, rest: string)
    ensures Eat(word + rest, word) == Some(rest)
  {
    StartsWithItself(word, rest);
  }

  lemma {:induction false} SkipOne(rest: string)
    requires rest != "" && !IsSpace(rest[0])
    ensures SkipSpaces(rest) == rest && SkipSpaces(" " + rest) == rest
  {
    assert (" " + rest)[1..] == rest;
  }

  lemma {:induction false} FilenameRead(filename: string, i: nat)
    requires QuotedOk(filename) && i <= |filename|
    ensures FilenameFrom(filename + "\"", i) == Some(filename)
    decreases |filename| - i
  {
    var s := filename + "\"";
    if i < |filename| {
      assert s[i] == filename[i];
      FilenameRead(filename, i + 1);
    } else {
      assert s[i + 1..] == "" && s[..i] == filename;
    }
  }

  lemma TailRead(filename: string)
    requires QuotedOk(filename)
    ensures FilenameTail(if filename == "" then "" else FILENAME_INTRO + (filename + "\"")) == Some(filename)
  {
    if filename != "" {
      var rest := filename + "\"";
      var s := FILENAME_INTRO + rest;
      var word := "filename=\"";
      assert s[1..] == " " + (word + rest);
      SkipOne(word + rest);
      EatWord(word, rest);
      FilenameRead(filename, 0);
    }
  }

  lemma {:induction false} NameRead(name: string, filename: string, tail: string, i: nat)
    requires QuotedOk(name) && i <= |name| && FilenameTail(tail) == Some(filename)
    ensures NameFrom(name + "\"" + tail, i) == Some((name, filename))
    decreases |name| - i
  {
    var s := name + "\"" + tail;
    if i < |name| {
      assert s[i] == name[i];
      NameRead(name, filename, tail, i + 1);
    } else {
      assert s[i + 1..] == tail && s[..i] == name;
    }
  }

  lemma {:induction false} IntroRead(rest: string)
    ensures Disposition(NAME_INTRO + rest) == NameFrom(rest, 0)
    ensures !StartsWithIgnoreCase(NAME_INTRO + rest, CONTENT_TYPE_NAME)
  {
    hide SkipSpaces, NameFrom, Eat, StartsWithIgnoreCase;
    IntroIsNotType(rest);
    var w1, w2, w3 := "Content-Disposition:", "form-data;", "name=\"";
    var r3 := w3 + rest;
    var r2 := w2 + (" " + r3);
    assert NAME_INTRO == w1 + " " + w2 + " " + w3;
    assert NAME_INTRO + rest == w1 + (" " + r2);
    EatWord(w1, " " + r2);
    SkipOne(r2);
    EatWord(w2, " " + r3);
    SkipOne(r3);
    EatWord(w3, rest);
  }

  lemma IntroIsNotType(rest: string)
    ensures !StartsWithIgnoreCase(NAME_INTRO + rest, CONTENT_TYPE_NAME)
  {
    assert (NAME_INTRO + rest)[8] == 'D' && CONTENT_TYPE_NAME[8] == 't';
  }

  lemma DispositionRead(item: Item, file: FileInfo)
    requires QuotedOk(item.name) && QuotedOk(item.filename)
    ensures ReadHeaderLine(file, DispositionLine(item)) == file.(name := item.name, filename := item.filename)
  {
    var tail := if item.filename == "" then "" else FILENAME_INTRO + (item.filename + "\"");
    var rest := item.name + "\"" + tail;
    TailRead(item.filename);
    NameRead(item.name, item.filename, tail, 0);
    IntroRead(rest);
    assert DispositionLine(item) == NAME_INTRO + rest;
  }

  lemma TypeRead(item: Item, file: FileInfo)
    requires item.contentType != "" && NoOuterBlanks(item.contentType)
    ensures ReadHeaderLine(file, TYPE_INTRO + item.contentType) == file.(contentType := item.contentType)
  {
    var line := TYPE_INTRO + item.contentType;
    assert |CONTENT_TYPE_NAME| == 13;
    assert forall i :: 0 <= i < 13 ==> ToLower(line[i]) == ToLower(CONTENT_TYPE_NAME[i]);
    assert line[13..] == " " + item.contentType;
    assert (" " + item.contentType)[1..] == item.contentType;
    TrimmedKeeps(item.contentType);
  }

  // ---- Items are entries ----------------------------------------------------------------------

  /** The header lines of an item, without their line ends. */
  function LinesOf(item: Item): seq<string> {
    [DispositionLine(item)] + (if item.contentType == "" then [] else [TYPE_INTRO + item.contentType])
  }

  function EntryOf(item: Item): E.Entry { E.Entry(LinesOf(item), item.content) }

  function EntriesOf(items: seq<Item>): seq<E.Entry> {
    seq(|items|, i requires 0 <= i < |items| => EntryOf(items[i]))
  }

  lemma QuotedHasNoLineEnd(s: string)
    requires '\r' !in s
    ensures !Contains(s, CRLF)
  {
    forall i ensures !At(s, CRLF, i) {
      if 0 <= i && i + 2 <= |s| { assert s[i..i + 2][0] == s[i]; }
    }
  }

  lemma TypeLineClean(contentType: string, i: int)
    requires !Contains(contentType, CRLF)
    ensures !At(TYPE_INTRO + contentType, CRLF, i)
  {
    var line := TYPE_INTRO + contentType;
    if |TYPE_INTRO| <= i {
      AtSuffix(TYPE_INTRO, contentType, CRLF, i - |TYPE_INTRO|);
    } else if 0 <= i && i + 2 <= |line| {
      assert line[i..i + 2][0] == TYPE_INTRO[i];
    }
  }

  lemma DispositionClean(item: Item)
    requires QuotedOk(item.name) && QuotedOk(item.filename)
    ensures E.LineOk(DispositionLine(item))
  {
    hide Contains;
    assert '\r' !in DispositionLine(item);
    QuotedHasNoLineEnd(DispositionLine(item));
  }

  lemma ItemIsEntry(item: Item, boundary: string)
    requires ItemOk(item, boundary)
    ensures E.EntryOk(EntryOf(item), boundary)
  {
    hide DispositionLine;
    DispositionClean(item);
    forall i ensures !At(TYPE_INTRO + item.contentType, CRLF, i) { TypeLineClean(item.contentType, i); }
  }

  /** The printed header lines say the item's name, filename and content type. */
  lemma {:induction false} LinesRead(item: Item)
    requires QuotedOk(item.name) && QuotedOk(item.filename) && NoOuterBlanks(item.contentType)
    ensures E.FileAfter(NO_FILE, LinesOf(item)) == PartOf(item).file
  {
    hide ReadHeaderLine, DispositionLine, QuotedOk, NoOuterBlanks;
    var lines := LinesOf(item);
    DispositionRead(item, NO_FILE);
    var file := FileInfo(item.name, item.filename, "");
    if item.contentType == "" {
      assert lines[1..] == [];
    } else {
      TypeRead(item, file);
      assert lines[1..] == [TYPE_INTRO + item.contentType] && lines[1..][1..] == [];
      assert E.FileAfter(file, lines[1..]) == E.FileAfter(ReadHeaderLine(file, lines[1..][0]), []);
    }
  }

  lemma {:induction false} SameParts(items: seq<Item>, boundary: string)
    requires forall i :: 0 <= i < |items| ==> ItemOk(items[i], boundary)
    ensures E.PartsFor(EntriesOf(items)) == PartsFor(items)
    decreases |items|
  {
    hide LinesOf, DispositionLine, E.FileAfter;
    if items != [] {
      LinesRead(items[0]);
      SameParts(items[1..], boundary);
      assert EntriesOf(items)[1..] == EntriesOf(items[1..]);
    }
  }

  // ---- The whole body -------------------------------------------------------------------------

  lemma {:induction false} EntriesHead(items: seq<Item>, boundary: string)
    requires items != []
    ensures Entries(items, boundary) == Entry(items[0], boundary) + Entries(items[1..], boundary)
  {
    hide Entry;
    var n := |items| - 1;
    if n == 0 {
      assert items[..0] == [] && items[1..] == [];
    } else {
      var init := items[..n];
      EntriesHead(init, boundary);
      assert items[1..][..n - 1] == init[1..];
      Assoc(Entry(items[0], boundary), Entries(init[1..], boundary), Entry(items[n], boundary));
    }
  }

  lemma {:induction false} BlockIs(item: Item, more: string)
    ensures Block(item) + more == E.LinesText(LinesOf(item)) + (CRLF + more)
  {
    hide DispositionLine;
    var lines := LinesOf(item);
    if item.contentType == "" {
      assert lines[1..] == [];
    } else {
      assert lines[1..] == [TYPE_INTRO + item.contentType] && lines[1..][1..] == [];
      assert E.LinesText(lines[1..]) == TYPE_INTRO + item.contentType + CRLF + E.LinesText([]);
    }
  }

  lemma Regroup(a: string, b: string, c: string, x: string, y: string)
    ensures a + (b + (c + x)) + y == a + (b + (c + (x + y)))
  {
    Assoc(c, x, y);
    Assoc(b, c + x, y);
    Assoc(a, b + (c + x), y);
  }

  lemma EntryIs(item: Item, after: string, boundary: string)
    ensures Entry(item, boundary) + ("--" + boundary + after) ==
            Opening(boundary) + E.EntryText(EntryOf(item), after, boundary)
  {
    hide Block, LinesOf;
    Regroup(Opening(boundary), Block(item), item.content, CRLF, "--" + boundary + after);
    assert CRLF + ("--" + boundary + after) == Delimiter(boundary) + after;
    Assoc(item.content, Delimiter(boundary), after);
    BlockIs(item, item.content + Delimiter(boundary) + after);
  }

  lemma PrintCons(items: seq<Item>, boundary: string)
    requires items != []
    ensures Print(items, boundary) == Entry(items[0], boundary) + Print(items[1..], boundary)
  {
    EntriesHead(items, boundary);
    Assoc(Entry(items[0], boundary), Entries(items[1..], boundary), "--" + boundary + FINAL);
  }

  lemma OpeningIs(boundary: string, more: string)
    ensures Opening(boundary) + more == "--" + boundary + (CRLF + more)
  {
    Assoc("--" + boundary, CRLF, more);
  }

  /** The printed body is the body of the items' entries. */
  lemma {:induction false} PrintIs(items: seq<Item>, boundary: string)
    requires items != []
    ensures Print(items, boundary) == E.BodyText(EntriesOf(items), boundary)
    decreases |items|
  {
    hide Entry, E.EntryText;
    PrintCons(items, boundary);
    var rest, entries := items[1..], EntriesOf(items);
    assert entries[1..] == EntriesOf(rest);
    if rest == [] {
      EntryIs(items[0], FINAL, boundary);
      assert Print(rest, boundary) == "--" + boundary + FINAL;
    } else {
      PrintIs(rest, boundary);
      var more := E.EntriesText(entries[1..], boundary);
      OpeningIs(boundary, more);
      EntryIs(items[0], CRLF + more, boundary);
    }
  }

  predicate FirstLinesFit(items: seq<Item>) {
    forall i :: 0 <= i < |items| ==> |DispositionLine(items[i])| <= HEADER_MAX_LENGTH
  }

  /** Both header lines are under the limit. */
  predicate ItemLinesShort(item: Item) {
    |DispositionLine(item)| < HEADER_MAX_LENGTH && |TYPE_INTRO + item.contentType| < HEADER_MAX_LENGTH
  }

  lemma SendableIsOk(items: seq<Item>, boundary: string)
    requires Sendable(items, boundary)
    ensures E.AllOk(EntriesOf(items), boundary) && E.PartsFor(EntriesOf(items)) == PartsFor(items)
    ensures E.FirstLinesFit(EntriesOf(items)) == FirstLinesFit(items)
  {
    hide E.EntryOk, ItemOk, DispositionLine;
    assert '\r' !in boundary;
    forall i | 0 <= i < |items| ensures E.EntryOk(EntriesOf(items)[i], boundary) { ItemIsEntry(items[i], boundary); }
    SameParts(items, boundary);
    assert forall i :: 0 <= i < |items| ==> EntriesOf(items)[i].lines[0] == DispositionLine(items[i]);
  }

  /** Round trip. Printed items fed in one call end valid and come back in order, names, filenames,
      content types and contents, exactly when every Content-Disposition line is within the limit; past
      it the call fails and the parser is not valid. The callbacks may be any that refuse nothing. */
  lemma {:induction false} RoundTrip(items: seq<Item>, boundary: string, answer: Callbacks)
    requires Sendable(items, boundary)
    requires Accepted(answer, Multipart.Parse(INITIAL, Print(items, boundary), boundary, answer).0.calls, 0)
    ensures var (c, ok) := Multipart.Parse(INITIAL, Print(items, boundary), boundary, answer);
            && ok == c.valid == FirstLinesFit(items)
            && (c.valid ==> c.buf == "" && PartsOf(c.calls) == PartsFor(items))
  {
    PrintIs(items, boundary);
    hide Multipart.Parse, Print, E.AllOk, FirstLinesFit, E.FirstLinesFit, PartsFor, PartsOf, E.PartsFor, E.BodyText;
    SendableIsOk(items, boundary);
    hide EntriesOf, Sendable;
    E.OneCall(EntriesOf(items), boundary, answer);
  }

  /** With no item there is no round trip: the closing line is not an opening line. */
  lemma NoItems(boundary: string)
    ensures var (c, ok) := Multipart.Parse(INITIAL, Print([], boundary), boundary, ACCEPT);
            !ok && !c.valid
  {
    var text := Print([], boundary);
    var k := 2 + |boundary|;
    assert text[k] == '-';
    assert Opening(boundary)[k] == '\r';
    if |Opening(boundary)| <= |text| { assert text[0..|Opening(boundary)|][k] == '-'; }
  }

  /** The same round trip for any cut into calls outside delimiters or safely inside them. */
  lemma {:induction false} RoundTripInPieces(items: seq<Item>, pieces: seq<string>, boundary: string, answer: Callbacks)
    requires Sendable(items, boundary) && forall i :: 0 <= i < |items| ==> ItemLinesShort(items[i])
    requires Join(pieces) == Print(items, boundary) && CutsSafe(pieces, boundary)
    requires Accepted(answer, ParseAll(pieces, boundary, answer).0.calls, 0)
    ensures var (c, ok) := ParseAll(pieces, boundary, answer);
            ok && c.valid && c.buf == "" && PartsOf(c.calls) == PartsFor(items)
  {
    PrintIs(items, boundary);
    SendableIsOk(items, boundary);
    hide ParseAll, Print, E.AllOk, FirstLinesFit, E.FirstLinesFit, PartsFor, PartsOf, E.PartsFor, E.BodyText, CutsSafe;
    hide Sendable;
    forall i | 0 <= i < |items| ensures E.Short(EntriesOf(items)[i].lines) { ShortItem(items[i]); }
    E.InPieces(EntriesOf(items), pieces, boundary, answer);
  }

  lemma ShortItem(item: Item)
    requires ItemLinesShort(item)
    ensures E.Short(LinesOf(item))
  {
    hide DispositionLine;
  }
}
