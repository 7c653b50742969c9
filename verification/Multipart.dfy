/** `multipart/form-data` (section 5.1.1 of RFC 2046, section 4 of RFC 7578): the values the parser and
    the printer share, and one call of `MultipartFormDataParser::parse` as a function on values. */
module Multipart {
  import opened Bytes
  import opened Text

  const CONTENT_TYPE_NAME := "content-type:"

  /** The parser's `state_`, 0 to 5. */
  datatype State = InitialBoundary | NewEntry | Headers | Body | Boundary | Done

  datatype FileInfo = FileInfo(name: string, filename: string, contentType: string)

  const NO_FILE := FileInfo("", "", "")

  /** A call of the header callback, or of the content callback with its bytes. */
  datatype Call = HeaderCall(file: FileInfo) | ContentCall(data: string)

  /** What the callbacks answer, given every call made so far, the present one last. */
  type Callbacks = seq<Call> -> bool

  /** The parser's fields; `buf` is the live window of `buf_`. */
  datatype Config = Config(state: State, valid: bool, file: FileInfo, buf: string, calls: seq<Call>)

  const INITIAL := Config(InitialBoundary, false, NO_FILE, "", [])

  function Opening(boundary: string): string { "--" + boundary + CRLF }

  function Delimiter(boundary: string): string { CRLF + "--" + boundary }

  // ---- Header lines -------------------------------------------------------------------------

  /** The text after `word`, letters compared without case. */
  function Eat(s: string, word: string): Option<string> {
    if StartsWithIgnoreCase(s, word) then Some(s[|word|..]) else None
  }

  /** `(.*?)"\s*$`: the shortest text before a quote that only white space follows. */
  function FilenameFrom(s: string, i: nat): Option<string>
    requires i <= |s|
    decreases |s| - i
  {
    if i == |s| then None
    else if s[i] == '"' && SkipSpaces(s[i + 1..]) == "" then Some(s[..i])
    else if s[i] == '\r' || s[i] == '\n' then None
    else FilenameFrom(s, i + 1)
  }

  /** `(?:;\s*filename="(.*?)")?\s*$`. */
  function FilenameTail(s: string): Option<string> {
    var group :=
      if s != "" && s[0] == ';' then
        match Eat(SkipSpaces(s[1..]), "filename=\"")
        case None => None
        case Some(rest) => FilenameFrom(rest, 0)
      else None;
    if group.Some? then group else if SkipSpaces(s) == "" then Some("") else None
  }

  /** `(.*?)"` followed by `FilenameTail`: the shortest name that lets the rest match. */
  function NameFrom(s: string, i: nat): Option<(string, string)>
    requires i <= |s|
    decreases |s| - i
  {
    if i == |s| then None
    else if s[i] == '"' && FilenameTail(s[i + 1..]).Some? then
      Some((s[..i], FilenameTail(s[i + 1..]).value))
    else if s[i] == '\r' || s[i] == '\n' then None
    else NameFrom(s, i + 1)
  }

  /** The name and filename the fixed Content-Disposition pattern captures. */
  function Disposition(line: string): Option<(string, string)> {
    match Eat(line, "Content-Disposition:")
    case None => None
    case Some(a) =>
      match Eat(SkipSpaces(a), "form-data;")
      case None => None
      case Some(b) =>
        match Eat(SkipSpaces(b), "name=\"")
        case None => None
        case Some(c) => NameFrom(c, 0)
  }

  function ReadHeaderLine(file: FileInfo, line: string): FileInfo {
    if StartsWithIgnoreCase(line, CONTENT_TYPE_NAME) then
      file.(contentType := Trimmed(line[|CONTENT_TYPE_NAME|..]))
    else
      match Disposition(line)
      case Some(m) => file.(name := m.0, filename := m.1)
      case None => file
  }

  // ---- One call of parse --------------------------------------------------------------------

  /** How one pass of the switch ends: go round the loop again, or return. */
  datatype Turn = Again(c: Config) | Return(c: Config, ok: bool)

  /** The blank line: report the file and move to the body. */
  function HeadersEnd(c: Config, answer: Callbacks): Turn
    requires |c.buf| >= 2
  {
    var calls := c.calls + [HeaderCall(c.file)];
    if !answer(calls) then Return(c.(valid := false, calls := calls), false)
    else Again(c.(buf := c.buf[2..], state := Body, calls := calls))
  }

  function LineTaken(c: Config, pos: nat): Config
    requires pos + 2 <= |c.buf|
  {
    c.(file := ReadHeaderLine(c.file, c.buf[..pos]), buf := c.buf[pos + 2..])
  }

  function HeaderLines(c: Config, answer: Callbacks): (t: Turn)
    requires c.state == Headers
    ensures t.Again? ==> t.c.state == Body && |t.c.buf| < |c.buf|
    decreases |c.buf|
  {
    var pos := Find(c.buf, CRLF);
    if pos == |c.buf| then Return(c, true)
    else if pos == 0 then HeadersEnd(c, answer)
    else HeaderLines(LineTaken(c, pos), answer)
  }

  function HandOn(c: Config, n: nat): Config
    requires n <= |c.buf|
  {
    c.(calls := c.calls + [ContentCall(c.buf[..n])])
  }

  function Erase(c: Config, n: nat): Config
    requires n <= |c.buf|
  {
    c.(buf := c.buf[n..])
  }

  /** Second half of the body state: up to the delimiter, or past one delimiter's length of text. */
  function DelimiterTurn(c: Config, boundary: string, answer: Callbacks): (t: Turn)
    requires c.state == Body
    ensures t.Again? ==> |t.c.buf| < |c.buf|
  {
    var delimiter := Delimiter(boundary);
    if |delimiter| > |c.buf| then Return(c, true)
    else
      var pos := Find(c.buf, delimiter);
      var handed := HandOn(c, if pos < |c.buf| then pos else |delimiter|);
      if !answer(handed.calls) then Return(handed.(valid := false), false)
      else if pos < |c.buf| then Again(Erase(handed, pos + |delimiter|).(state := Boundary))
      else Again(Erase(handed, |delimiter|))
  }

  function BodyTurn(c: Config, boundary: string, answer: Callbacks): (t: Turn)
    requires c.state == Body
    ensures t.Again? ==> |t.c.buf| < |c.buf|
  {
    var dash := CRLF + "--";
    if |dash| > |c.buf| then Return(c, true)
    else
      var pos := Find(c.buf, dash);
      var handed := HandOn(c, pos);
      if !answer(handed.calls) then Return(handed.(valid := false), false)
      else DelimiterTurn(Erase(handed, pos), boundary, answer)
  }

  /** Whether the window starts with `pattern`; if so the pattern is erased. */
  datatype Seen = Short | Differs | Taken(c: Config)

  function Expect(c: Config, pattern: string): (seen: Seen)
    ensures seen.Taken? ==> |seen.c.buf| + |pattern| == |c.buf|
  {
    if |pattern| > |c.buf| then Short
    else if !At(c.buf, pattern, 0) then Differs
    else Taken(Erase(c, |pattern|))
  }

  function OpeningTurn(c: Config, boundary: string): (t: Turn)
    ensures t.Again? ==> |t.c.buf| < |c.buf|
  {
    match Expect(c, Opening(boundary))
    case Short => Return(c, true)
    case Differs => Return(c, false)
    case Taken(c') => Again(c'.(state := NewEntry))
  }

  const FINAL := "--" + CRLF

  /** After a delimiter: a new entry, the end, or stuck for good. */
  function BoundaryTurn(c: Config): (t: Turn)
    ensures t.Again? ==> |t.c.buf| < |c.buf|
  {
    match Expect(c, CRLF)
    case Short => Return(c, true)
    case Taken(c') => Again(c'.(state := NewEntry))
    case Differs =>
      match Expect(c, FINAL)
      case Short => Return(c, true)
      case Differs => Return(c, true)
      case Taken(c') => Again(c'.(valid := true, state := Done))
  }

  function SwitchTurn(c: Config, boundary: string, answer: Callbacks): (t: Turn)
    requires c.buf != ""
    ensures t.Again? ==> |t.c.buf| < |c.buf| || (t.c.buf == c.buf && c.state == NewEntry && t.c.state == Headers)
  {
    match c.state
    case InitialBoundary => OpeningTurn(c, boundary)
    case NewEntry => Again(c.(file := NO_FILE, state := Headers))
    case Headers => if Find(c.buf, CRLF) > HEADER_MAX_LENGTH then Return(c, false) else HeaderLines(c, answer)
    case Body => BodyTurn(c, boundary, answer)
    case Boundary => BoundaryTurn(c)
    case Done => Return(c.(valid := false), false)
  }

  /** The `while (buf_size() > 0)` loop. It ends because each turn erases bytes, except the turn that
      leaves the new-entry state. */
  function Run(c: Config, boundary: string, answer: Callbacks): (Config, bool)
    decreases |c.buf|, if c.state == NewEntry then 1 else 0
  {
    if c.buf == "" then (c, true)
    else
      match SwitchTurn(c, boundary, answer)
      case Return(c', ok) => (c', ok)
      case Again(c') => Run(c', boundary, answer)
  }

  function Parse(c: Config, data: string, boundary: string, answer: Callbacks): (Config, bool) {
    Run(c.(buf := c.buf + data), boundary, answer)
  }
}
