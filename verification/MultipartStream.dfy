/** What the parser means, independent of how its input is cut into calls: an abstract document that
    keeps every byte, and the proof that the real machine agrees with it. */
module MultipartStream {
  import opened Bytes
  import opened Text
  import opened Multipart

  datatype Part = Part(file: FileInfo, content: string)

  /** In the body state the open part holds everything seen since its header block, handed on or not,
      and `rest` is empty; in every other state `rest` is the unread text. */
  datatype Doc = Doc(state: State, file: FileInfo, parts: seq<Part>, rest: string)

  const START := Doc(InitialBoundary, NO_FILE, [], "")

  ghost predicate WellFormed(d: Doc) {
    d.state == Body ==> d.parts != [] && d.rest == ""
  }

  function Last(parts: seq<Part>): Part
    requires parts != []
  {
    parts[|parts| - 1]
  }

  function WithLast(parts: seq<Part>, content: string): seq<Part>
    requires parts != []
  {
    parts[..|parts| - 1] + [Last(parts).(content := content)]
  }

  /** Text not yet settled: the open content in the body state, the unread text elsewhere. */
  function Unsettled(d: Doc): string
    requires WellFormed(d)
  {
    if d.state == Body then Last(d.parts).content else d.rest
  }

  function Extend(d: Doc, data: string): (r: Doc)
    requires WellFormed(d)
    ensures WellFormed(r) && Unsettled(r) == Unsettled(d) + data && r.state == d.state
  {
    if d.state == Body then d.(parts := WithLast(d.parts, Last(d.parts).content + data))
    else d.(rest := d.rest + data)
  }

  // ---- The abstract machine -----------------------------------------------------------------

  predicate CanStep(d: Doc, boundary: string)
    requires WellFormed(d)
  {
    match d.state
    case InitialBoundary => At(d.rest, Opening(boundary), 0)
    case NewEntry => d.rest != ""
    case Headers => Find(d.rest, CRLF) < |d.rest|
    case Body => Find(Unsettled(d), Delimiter(boundary)) < |Unsettled(d)|
    case Boundary => At(d.rest, CRLF, 0) || At(d.rest, FINAL, 0)
    case Done => false
  }

  function HeaderStep(d: Doc): (r: Doc)
    requires d.state == Headers && Find(d.rest, CRLF) < |d.rest|
    ensures WellFormed(r)
  {
    var pos := Find(d.rest, CRLF);
    if pos == 0 then Doc(Body, d.file, d.parts + [Part(d.file, d.rest[2..])], "")
    else d.(file := ReadHeaderLine(d.file, d.rest[..pos]), rest := d.rest[pos + 2..])
  }

  function BodyStep(d: Doc, boundary: string): (r: Doc)
    requires WellFormed(d) && d.state == Body
    requires Find(Unsettled(d), Delimiter(boundary)) < |Unsettled(d)|
    ensures WellFormed(r)
  {
    var text := Last(d.parts).content;
    var pos := Find(text, Delimiter(boundary));
    Doc(Boundary, d.file, WithLast(d.parts, text[..pos]), text[pos + |Delimiter(boundary)|..])
  }

  function Step(d: Doc, boundary: string): (r: Doc)
    requires WellFormed(d) && CanStep(d, boundary)
    ensures WellFormed(r)
    ensures |Unsettled(r)| < |Unsettled(d)| ||
            (Unsettled(r) == Unsettled(d) && d.state == NewEntry && r.state == Headers)
  {
    match d.state
    case InitialBoundary => d.(state := NewEntry, rest := d.rest[|Opening(boundary)|..])
    case NewEntry => d.(file := NO_FILE, state := Headers)
    case Headers => HeaderStep(d)
    case Body => BodyStep(d, boundary)
    case Boundary =>
      if At(d.rest, CRLF, 0) then d.(state := NewEntry, rest := d.rest[2..])
      else d.(state := State.Done, rest := d.rest[4..])
  }

  /** The document once nothing more can be settled. */
  function Settle(d: Doc, boundary: string): (r: Doc)
    requires WellFormed(d)
    ensures WellFormed(r) && !CanStep(r, boundary)
    decreases |Unsettled(d)|, if d.state == NewEntry then 1 else 0
  {
    if CanStep(d, boundary) then Settle(Step(d, boundary), boundary) else d
  }

  /** Every step keeps working when more bytes follow, and leaves them untouched. */
  lemma StepExtends(d: Doc, data: string, boundary: string)
    requires WellFormed(d) && CanStep(d, boundary)
    ensures CanStep(Extend(d, data), boundary)
    ensures Step(Extend(d, data), boundary) == Extend(Step(d, boundary), data)
  {
    match d.state
    case InitialBoundary =>
      AtPrefix(d.rest, data, Opening(boundary), 0);
    case NewEntry =>
    case Headers =>
      FindGrows(d.rest, data, CRLF);
      HeaderStepExtends(d, data);
    case Body =>
      FindGrows(Unsettled(d), data, Delimiter(boundary));
      BodyStepExtends(d, data, boundary);
    case Boundary =>
      BoundaryStepExtends(d, data, boundary);
  }

  lemma HeaderStepExtends(d: Doc, data: string)
    requires d.state == Headers && Find(d.rest, CRLF) < |d.rest|
    requires Find(d.rest + data, CRLF) == Find(d.rest, CRLF)
    ensures HeaderStep(Extend(d, data)) == Extend(HeaderStep(d), data)
  {
    var pos := Find(d.rest, CRLF);
    assert (d.rest + data)[..pos] == d.rest[..pos];
    assert (d.rest + data)[pos + 2..] == d.rest[pos + 2..] + data;
    if pos == 0 {
      var part := Part(d.file, d.rest[2..]);
      assert (d.parts + [part])[..|d.parts|] == d.parts;
    }
  }

  lemma BodyStepExtends(d: Doc, data: string, boundary: string)
    requires WellFormed(d) && d.state == Body
    requires Find(Unsettled(d), Delimiter(boundary)) < |Unsettled(d)|
    requires Find(Unsettled(d) + data, Delimiter(boundary)) == Find(Unsettled(d), Delimiter(boundary))
    ensures BodyStep(Extend(d, data), boundary) == Extend(BodyStep(d, boundary), data)
  {
    hide Find;
    var text := Unsettled(d);
    var pos := Find(text, Delimiter(boundary));
    var end := pos + |Delimiter(boundary)|;
    assert (text + data)[..pos] == text[..pos];
    assert (text + data)[end..] == text[end..] + data;
    var init := d.parts[..|d.parts| - 1];
    assert WithLast(d.parts, text + data)[..|d.parts| - 1] == init;
  }

  lemma BoundaryStepExtends(d: Doc, data: string, boundary: string)
    requires d.state == Boundary && CanStep(d, boundary)
    ensures CanStep(Extend(d, data), boundary)
    ensures Step(Extend(d, data), boundary) == Extend(Step(d, boundary), data)
  {
    AtPrefix(d.rest, data, CRLF, 0);
    if At(d.rest, CRLF, 0) {
      assert (d.rest + data)[2..] == d.rest[2..] + data;
    } else {
      assert d.rest[0] == '-';
      AtPrefix(d.rest, data, FINAL, 0);
      assert !At(d.rest + data, CRLF, 0);
      assert (d.rest + data)[4..] == d.rest[4..] + data;
    }
  }

  /** Settling early does no harm: what is settled from a prefix is settled the same way in the whole. */
  lemma {:induction false} SettleEarly(d: Doc, data: string, boundary: string)
    requires WellFormed(d)
    ensures Settle(Extend(Settle(d, boundary), data), boundary) == Settle(Extend(d, data), boundary)
    decreases |Unsettled(d)|, if d.state == NewEntry then 1 else 0
  {
    if CanStep(d, boundary) {
      SettleEarly(Step(d, boundary), data, boundary);
      StepExtends(d, data, boundary);
    }
  }
}
