/** Header sections (section 5 of RFC 9112): `write_format`, `write_headers`, `parse_header` and
    `read_headers`. */
module HeaderBlock {
  import opened Bytes
  import opened Text
  import opened PercentCoding
  import opened Multimap
  import opened SocketStream
  import opened LineReader

  type Headers = Multimap

  // ---- Writing ------------------------------------------------------------------------------------

  /** `BufferStream`: takes everything it is given. */
  class BufferStream {
    var buffer: string

    constructor ()
      ensures buffer == ""
    {
      buffer := "";
    }

    method Write(data: string) returns (n: int)
      modifies this
      ensures n == |data| && buffer == old(buffer) + data
    {
      buffer := buffer + data;
      n := |data|;
    }
  }

  /** What `%s` prints of a string. */
  function CStr(s: string): string { s[..FirstNul(s)] }

  /** `snprintf(buf, size, ...)`: at most `size - 1` bytes stored, the full length returned. */
  function Snprintf(size: nat, text: string): (r: (nat, string))
    requires size > 0
  {
    (|text|, if |text| < size then text else text[..size - 1])
  }

  /** `write_format` of a text whose length an `int` can hold. The growing buffer never cuts it. */
  method WriteFormat(strm: BufferStream, text: string) returns (n: int)
    modifies strm
    ensures n == |text| && strm.buffer == old(strm.buffer) + text
  {
    var bufsiz := 2048;
    var (sn, buf) := Snprintf(bufsiz - 1, text);
    if sn <= 0 {
      assert text == "" && strm.buffer + text == strm.buffer;
      return sn;
    }
    if sn >= bufsiz - 1 {
      var size := bufsiz;
      while sn >= size - 1
        invariant size >= 2048 && sn == |text|
        invariant sn < size - 1 ==> buf == text
        decreases |text| + 1 - size
      {
        size := size * 2;
        sn, buf := Snprintf(size - 1, text).0, Snprintf(size - 1, text).1;
      }
    }
    n := strm.Write(buf[..sn]);
  }

  function HeaderText(h: (string, string)): string { CStr(h.0) + ": " + CStr(h.1) + CRLF }

  function HeaderTexts(headers: Headers): string {
    if headers == [] then "" else HeaderText(headers[0]) + HeaderTexts(headers[1..])
  }

  method WriteHeaders(strm: BufferStream, headers: Headers) returns (written: int)
    modifies strm
    ensures strm.buffer == old(strm.buffer) + HeaderTexts(headers) + CRLF
    ensures written == |HeaderTexts(headers) + CRLF|
  {
    written := 0;
    assert headers[0..] == headers;
    for i := 0 to |headers|
      invariant old(strm.buffer) + HeaderTexts(headers) == strm.buffer + HeaderTexts(headers[i..])
      invariant |HeaderTexts(headers)| == written + |HeaderTexts(headers[i..])|
    {
      assert headers[i..][1..] == headers[i + 1..];
      Assoc(strm.buffer, HeaderText(headers[i]), HeaderTexts(headers[i + 1..]));
      var len := WriteFormat(strm, HeaderText(headers[i]));
      written := written + len;
    }
    assert strm.buffer + HeaderTexts([]) == strm.buffer;
    var len := strm.Write(CRLF);
    written := written + len;
  }

  // ---- One line -----------------------------------------------------------------------------------

  function TrimRight(s: string): string {
    if s != "" && IsBlank(s[|s| - 1]) then TrimRight(s[..|s| - 1]) else s
  }

  function TrimLeft(s: string): string { if s != "" && IsBlank(s[0]) then TrimLeft(s[1..]) else s }

  function ColonAt(s: string): (k: nat)
    ensures k <= |s| && ':' !in s[..k] && (k < |s| ==> s[k] == ':')
  {
    if s == "" || s[0] == ':' then 0 else ColonAt(s[1..]) + 1
  }

  /** `parse_header` on a line without its line end: name up to the colon, decoded value. */
  function ParseHeader(line: string): Option<(string, string)> {
    var t := TrimRight(line);
    var k := ColonAt(t);
    if k == |t| then None
    else
      var value := TrimLeft(t[k + 1..]);
      if value == "" then None else Some((t[..k], DecodeUrl(value, false)))
  }

  method TrimEnd(line: string) returns (end: nat)
    ensures end <= |line| && line[..end] == TrimRight(line)
  {
    end := |line|;
    assert line[..end] == line;
    while 0 < end && IsBlank(line[end - 1])
      invariant end <= |line| && TrimRight(line[..end]) == TrimRight(line)
    {
      assert line[..end][..end - 1] == line[..end - 1];
      end := end - 1;
    }
  }

  method FindColon(t: string) returns (p: nat)
    ensures p == ColonAt(t)
  {
    p := 0;
    assert t[0..] == t;
    while p < |t| && t[p] != ':'
      invariant 0 <= p <= |t| && ColonAt(t) == p + ColonAt(t[p..])
    {
      assert t[p..][1..] == t[p + 1..];
      p := p + 1;
    }
  }

  method SkipBlanks(t: string, start: nat) returns (p: nat)
    requires start <= |t|
    ensures start <= p <= |t| && t[p..] == TrimLeft(t[start..])
  {
    p := start;
    while p < |t| && IsBlank(t[p])
      invariant start <= p <= |t| && TrimLeft(t[p..]) == TrimLeft(t[start..])
    {
      assert t[p..][1..] == t[p + 1..];
      p := p + 1;
    }
  }

  /** The three scans of `parse_header`. */
  method ParseHeaderLoop(line: string) returns (header: Option<(string, string)>)
    ensures header == ParseHeader(line)
  {
    hide TrimRight, ColonAt, TrimLeft;
    var end := TrimEnd(line);
    var t := line[..end];
    var keyEnd := FindColon(t);
    if keyEnd == end { return None; }
    var p := SkipBlanks(t, keyEnd + 1);
    if p == end { return None; }
    var value := DecodeUrlLoop(t[p..], false);
    return Some((t[..keyEnd], value));
  }

  // ---- The block ----------------------------------------------------------------------------------

  /** How reading a block ends: success or not, the headers, the bytes left; `ranOut` when the bytes ended
      before the block did. */
  datatype Block = Block(ok: bool, headers: Headers, rest: string, ranOut: bool)

  predicate EndsWithCrlf(line: string) { |line| >= 2 && line[|line| - 2] == '\r' && line[|line| - 1] == '\n' }

  function WithLine(headers: Headers, line: string): Headers
    requires |line| >= 2
  {
    match ParseHeader(line[..|line| - 2])
    case None => headers
    case Some(h) => Emplace(headers, h, true)
  }

  /** `read_headers` over the bytes of the stream. */
  function ReadBlock(s: string, ending: int, headers: Headers): Block
    decreases |s|
  {
    if !HasLine(s, ending) then Block(false, headers, s, true)
    else
      var k := LineLength(s);
      var line, rest := s[..k], s[k..];
      if !EndsWithCrlf(line) then ReadBlock(rest, ending, headers)
      else if |line| == 2 then Block(true, headers, rest, false)
      else if |line| > HEADER_MAX_LENGTH then Block(false, headers, rest, false)
      else ReadBlock(rest, ending, WithLine(headers, line))
  }

  /** What one line does: stop with an answer, or go on with these headers. */
  function LineDone(line: string, headers: Headers): (Option<bool>, Headers) {
    if !EndsWithCrlf(line) then (None, headers)
    else if |line| == 2 then (Some(true), headers)
    else if |line| > HEADER_MAX_LENGTH then (Some(false), headers)
    else (None, WithLine(headers, line))
  }

  lemma {:induction false} ReadBlockStep(s: string, ending: int, headers: Headers)
    requires HasLine(s, ending)
    ensures var k := LineLength(s);
            var (stop, headers') := LineDone(s[..k], headers);
            && (stop.Some? ==> ReadBlock(s, ending, headers) == Block(stop.value, headers', s[k..], false))
            && (stop.None? ==> ReadBlock(s, ending, headers) == ReadBlock(s[k..], ending, headers'))
  {
  }

  lemma {:induction false} RanOut(s: string, ending: int, headers: Headers)
    requires !HasLine(s, ending)
    ensures ReadBlock(s, ending, headers) == Block(false, headers, s, true) && (ending == 0 ==> s == "")
  {
  }

  method TakeLine(line: string, headers0: Headers) returns (stop: Option<bool>, headers: Headers)
    ensures (stop, headers) == LineDone(line, headers0)
  {
    if !EndsWithCrlf(line) { return None, headers0; }
    if |line| == 2 { return Some(true), headers0; }
    if |line| > HEADER_MAX_LENGTH { return Some(false), headers0; }
    var h := ParseHeaderLoop(line[..|line| - 2]);
    return None, if h.Some? then Emplace(headers0, h.value, true) else headers0;
  }

  /** `read_headers`, over any segmentation of the stream. */
  method ReadHeaders(strm: SocketStream, headers0: Headers) returns (ok: bool, headers: Headers)
    requires strm.Valid()
    modifies strm, strm.sock, strm.readBuff
    ensures strm.Valid()
    ensures ok == ReadBlock(old(strm.Rest()), old(strm.Ending()), headers0).ok
    ensures headers == ReadBlock(old(strm.Rest()), old(strm.Ending()), headers0).headers
    ensures var block := ReadBlock(old(strm.Rest()), old(strm.Ending()), headers0);
            old(strm.Ending()) == 0 || !block.ranOut ==> strm.Rest() == block.rest
  {
    hide StreamLineReader.Valid, StreamLineReader.Line, SocketStream.Valid, SocketStream.Rest, SocketStream.Ending;
    hide LineDone, LineLength, WithLine, ReadBlock;
    var reader := new StreamLineReader(strm, 2048);
    headers := headers0;
    ghost var start, ending := strm.Rest(), strm.Ending();
    ghost var before := start;
    ok := reader.Getline();
    while ok
      modifies reader, reader.fixedBuffer, strm, strm.sock, strm.readBuff
      invariant strm.Valid() && reader.Valid()
      invariant ok == HasLine(before, ending)
      invariant ReadBlock(start, ending, headers0) == ReadBlock(before, ending, headers)
      invariant ok ==> strm.Ending() == ending
      invariant !ok && ending == 0 ==> strm.Rest() == ""
      invariant ok ==> reader.Line() == before[..LineLength(before)] && strm.Rest() == before[LineLength(before)..]
      decreases |before|
    {
      ReadBlockStep(before, ending, headers);
      var stop: Option<bool>;
      stop, headers := TakeLine(reader.Line(), headers);
      if stop.Some? { return stop.value, headers; }
      before := strm.Rest();
      ok := reader.Getline();
    }
    RanOut(before, ending, headers);
  }

  // ---- What a line means ----------------------------------------------------------------------------

  /** The line has this name and this value before decoding. */
  ghost predicate LineMatches(line: string, name: string, value: string) {
    ':' !in name && value != "" && NoOuterBlanks(value) &&
    exists before, after :: AllBlank(before) && AllBlank(after) && line == name + ":" + before + value + after
  }

  lemma {:induction false} ColonFound(name: string, rest: string)
    requires ':' !in name
    ensures ColonAt(name + ":" + rest) == |name|
  {
    if name != "" {
      ColonFound(name[1..], rest);
      assert (name + ":" + rest)[1..] == name[1..] + ":" + rest;
    }
  }

  lemma {:induction false} RightBlanks(s: string, after: string)
    requires AllBlank(after) && s != "" && !IsBlank(s[|s| - 1])
    ensures TrimRight(s + after) == s
    decreases |after|
  {
    hide IsBlank;
    if after == "" {
      assert s + after == s;
    } else {
      assert (s + after)[..|s + after| - 1] == s + after[..|after| - 1];
      RightBlanks(s, after[..|after| - 1]);
    }
  }

  lemma {:induction false} LeftBlanks(before: string, s: string)
    requires AllBlank(before) && (s != "" ==> !IsBlank(s[0]))
    ensures TrimLeft(before + s) == s
  {
    hide IsBlank;
    if before == "" {
      assert before + s == s;
    } else {
      assert (before + s)[1..] == before[1..] + s;
      LeftBlanks(before[1..], s);
    }
  }

  lemma {:induction false} RightSplit(s: string) returns (after: string)
    ensures s == TrimRight(s) + after && AllBlank(after)
    ensures TrimRight(s) != "" ==> !IsBlank(TrimRight(s)[|TrimRight(s)| - 1])
  {
    hide IsBlank;
    if s != "" && IsBlank(s[|s| - 1]) {
      var more := RightSplit(s[..|s| - 1]);
      after := more + [s[|s| - 1]];
    } else {
      after := "";
    }
  }

  lemma {:induction false} LeftSplit(s: string) returns (before: string)
    ensures s == before + TrimLeft(s) && AllBlank(before)
    ensures TrimLeft(s) != "" ==> !IsBlank(TrimLeft(s)[0])
  {
    hide IsBlank;
    if s != "" && IsBlank(s[0]) {
      var more := LeftSplit(s[1..]);
      before := [s[0]] + more;
    } else {
      before := "";
    }
  }

  lemma {:induction false} MatchIsRead(line: string, name: string, value: string)
    requires LineMatches(line, name, value)
    ensures ParseHeader(line) == Some((name, DecodeUrl(value, false)))
  {
    hide IsBlank, AllBlank, TrimRight, TrimLeft, ColonAt, DecodeUrl;
    var before, after :| AllBlank(before) && AllBlank(after) && line == name + ":" + before + value + after;
    var t := name + ":" + before + value;
    assert t[|t| - 1] == value[|value| - 1];
    RightBlanks(t, after);
    assert t == name + ":" + (before + value);
    ColonFound(name, before + value);
    assert t[..|name|] == name && t[|name| + 1..] == before + value;
    LeftBlanks(before, value);
  }

  lemma {:induction false} ReadIsMatch(line: string) returns (value: string)
    requires ParseHeader(line).Some?
    ensures LineMatches(line, ParseHeader(line).value.0, value)
  {
    hide IsBlank, AllBlank, TrimRight, TrimLeft, DecodeUrl;
    var after := RightSplit(line);
    var t := TrimRight(line);
    var k := ColonAt(t);
    var before := LeftSplit(t[k + 1..]);
    value := TrimLeft(t[k + 1..]);
    assert t == t[..k] + ":" + (before + value);
    assert value[|value| - 1] == t[|t| - 1];
    assert line == t[..k] + ":" + before + value + after;
  }

  /** `parse_header` accepts exactly the lines with a colon and something that is not blank after it. The
      name is all that stands before the first colon, the value what stands between the blanks, decoded. */
  lemma HeaderLine(line: string, header: (string, string))
    ensures ParseHeader(line) == Some(header) <==>
            exists value :: LineMatches(line, header.0, value) && header.1 == DecodeUrl(value, false)
    ensures ParseHeader(line).None? <==> forall name, value :: !LineMatches(line, name, value)
  {
    hide ParseHeader, LineMatches;
    forall name, value | LineMatches(line, name, value)
      ensures ParseHeader(line) == Some((name, DecodeUrl(value, false)))
    {
      MatchIsRead(line, name, value);
    }
    if ParseHeader(line).Some? {
      var value := ReadIsMatch(line);
    }
  }

  /** A value of any bytes, written in escapes, is read back, whatever blanks are around it. */
  lemma EscapedHeader(name: string, before: string, v: string, after: string)
    requires ':' !in name && v != "" && AllBytes(v) && AllBlank(before) && AllBlank(after)
    ensures ParseHeader(name + ":" + before + Escaped(v) + after) == Some((name, v))
  {
    EscapedIs(v);
    EscapedRead(v, false);
    assert LineMatches(name + ":" + before + Escaped(v) + after, name, Escaped(v));
    hide ParseHeader, LineMatches;
    HeaderLine(name + ":" + before + Escaped(v) + after, (name, v));
  }

  // ---- What a block means ---------------------------------------------------------------------------

  /** A line of a block before its blank line: its text, ended by CRLF or by a bare line feed. */
  datatype RawLine = RawLine(text: string, crlf: bool)

  predicate RawOk(line: RawLine) {
    '\n' !in line.text && (if line.crlf then line.text != "" else line.text == "" || line.text[|line.text| - 1] != '\r')
  }

  function RawText(line: RawLine): string { line.text + (if line.crlf then CRLF else "\n") }

  function BlockText(lines: seq<RawLine>): string {
    if lines == [] then "" else RawText(lines[0]) + BlockText(lines[1..])
  }

  /** The headers that the lines give, in order; only a line that ends in CRLF can give one. */
  function HeadersIn(lines: seq<RawLine>): Headers {
    if lines == [] then []
    else
      var h := if lines[0].crlf then ParseHeader(lines[0].text) else None;
      (if h.Some? then [h.value] else []) + HeadersIn(lines[1..])
  }

  predicate RawFits(line: RawLine) { line.crlf ==> |line.text| + 2 <= 8192 }

  lemma {:induction false} RawLineIs(line: RawLine, more: string, ending: int)
    requires RawOk(line)
    ensures var s := RawText(line) + more;
            HasLine(s, ending) && s[..LineLength(s)] == RawText(line) && s[LineLength(s)..] == more
  {
    var text := if line.crlf then line.text + "\r" else line.text;
    var s := RawText(line) + more;
    assert s == text + "\n" + more;
    LineLengthIs(text, more);
    assert s[|text|] == '\n';
  }

  lemma RawDone(line: RawLine, before: Headers)
    requires RawOk(line)
    ensures LineDone(RawText(line), before) ==
            if !RawFits(line) then (Some(false), before)
            else if line.crlf && ParseHeader(line.text).Some? then
              (None, Emplace(before, ParseHeader(line.text).value, true))
            else (None, before)
  {
    hide ParseHeader, Emplace;
    if line.crlf { assert RawText(line)[..|RawText(line)| - 2] == line.text; }
  }

  lemma {:induction false} RawStep(line: RawLine, more: string, ending: int, before: Headers)
    requires RawOk(line)
    ensures var after := if line.crlf && ParseHeader(line.text).Some?
                         then Emplace(before, ParseHeader(line.text).value, true) else before;
            ReadBlock(RawText(line) + more, ending, before) ==
            if RawFits(line) then ReadBlock(more, ending, after) else Block(false, before, more, false)
  {
    hide ParseHeader, Emplace, ReadBlock, RawText, LineDone, RawOk, HasLine, LineLength;
    RawLineIs(line, more, ending);
    RawDone(line, before);
    ReadBlockStep(RawText(line) + more, ending, before);
  }

  lemma {:induction false} BlankStep(rest: string, ending: int, before: Headers)
    ensures ReadBlock(CRLF + rest, ending, before) == Block(true, before, rest, false)
  {
    var s := CRLF + rest;
    assert s == "\r" + "\n" + rest;
    LineLengthIs("\r", rest);
    assert s[..2] == CRLF && s[2..] == rest && s[1] == '\n';
  }

  predicate AllFit(lines: seq<RawLine>) { forall i :: 0 <= i < |lines| ==> RawFits(lines[i]) }

  lemma {:induction false} LinesThen(lines: seq<RawLine>, more: string, ending: int, before: Headers)
    requires forall i :: 0 <= i < |lines| ==> RawOk(lines[i])
    ensures var block := ReadBlock(BlockText(lines) + more, ending, before);
            if AllFit(lines) then block == ReadBlock(more, ending, EmplaceAll(before, HeadersIn(lines), true))
            else !block.ok
    decreases |lines|
  {
    hide ReadBlock, RawOk, RawFits, RawText, Emplace, ParseHeader;
    if lines == [] {
      assert BlockText(lines) + more == more;
    } else {
      var line, later := lines[0], lines[1..];
      Assoc(RawText(line), BlockText(later), more);
      RawStep(line, BlockText(later) + more, ending, before);
      var h := if line.crlf then ParseHeader(line.text) else None;
      var after := if h.Some? then Emplace(before, h.value, true) else before;
      LinesThen(later, more, ending, after);
      assert HeadersIn(lines) == (if h.Some? then [h.value] else []) + HeadersIn(later);
      EmplaceCons(before, if h.Some? then [h.value] else [], HeadersIn(later), true);
      assert forall i :: 0 < i < |lines| ==> lines[i] == later[i - 1];
    }
  }

  /** What `read_headers` reads from any lines up to the first blank one: it succeeds exactly when every
      line that ends in CRLF is within the limit, then has inserted their headers in order, lines without
      a header left out, and has stopped just past the blank line. */
  lemma {:induction false} AnyBlock(lines: seq<RawLine>, rest: string, ending: int, before: Headers)
    requires forall i :: 0 <= i < |lines| ==> RawOk(lines[i])
    ensures var block := ReadBlock(BlockText(lines) + (CRLF + rest), ending, before);
            && (block.ok <==> AllFit(lines))
            && (block.ok ==> block == Block(true, EmplaceAll(before, HeadersIn(lines), true), rest, false))
  {
    hide ReadBlock, RawOk, AllFit;
    LinesThen(lines, CRLF + rest, ending, before);
    BlankStep(rest, ending, EmplaceAll(before, HeadersIn(lines), true));
  }

  /** Without a blank line it fails, with the headers of the lines there were. */
  lemma {:induction false} NoBlankLine(lines: seq<RawLine>, part: string, ending: int, before: Headers)
    requires forall i :: 0 <= i < |lines| ==> RawOk(lines[i])
    requires '\n' !in part
    ensures var block := ReadBlock(BlockText(lines) + part, ending, before);
            !block.ok && (AllFit(lines) ==> block.headers == EmplaceAll(before, HeadersIn(lines), true))
  {
    hide RawOk, AllFit;
    LinesThen(lines, part, ending, before);
    if part != "" { assert part[..|part|] == part && part[|part|..] == ""; }
  }

  // ---- Round trip ---------------------------------------------------------------------------------

  /** What a written header reads as: cut at its first NUL, the value decoded. */
  function AsRead(h: (string, string)): (string, string) { (CStr(h.0), DecodeUrl(CStr(h.1), false)) }

  function AllAsRead(headers: Headers): Headers {
    seq(|headers|, i requires 0 <= i < |headers| => AsRead(headers[i]))
  }

  /** As printed, a name without a colon or line feed and a non-empty value without line feeds and outer
      blanks, on a line within the limit. */
  ghost predicate HeaderOk(h: (string, string)) {
    && '\n' !in CStr(h.0) && ':' !in CStr(h.0)
    && '\n' !in CStr(h.1) && CStr(h.1) != "" && NoOuterBlanks(CStr(h.1))
    && |HeaderText(h)| <= HEADER_MAX_LENGTH
  }

  function LineOf(h: (string, string)): RawLine { RawLine(CStr(h.0) + ": " + CStr(h.1), true) }

  function LinesOf(headers: Headers): seq<RawLine> {
    seq(|headers|, i requires 0 <= i < |headers| => LineOf(headers[i]))
  }

  lemma HeaderRead(h: (string, string))
    requires HeaderOk(h)
    ensures RawOk(LineOf(h)) && RawFits(LineOf(h)) && ParseHeader(LineOf(h).text) == Some(AsRead(h))
  {
    hide ParseHeader, DecodeUrl, CStr, IsBlank;
    var text := LineOf(h).text;
    assert text == CStr(h.0) + ":" + " " + CStr(h.1) + "";
    OneBlank();
    assert LineMatches(text, CStr(h.0), CStr(h.1));
    MatchIsRead(text, CStr(h.0), CStr(h.1));
  }

  lemma OneBlank()
    ensures AllBlank(" ") && AllBlank("")
  {
  }

  lemma {:induction false} TextsAre(headers: Headers)
    ensures HeaderTexts(headers) == BlockText(LinesOf(headers))
    decreases |headers|
  {
    hide CStr;
    if headers != [] {
      TextsAre(headers[1..]);
      assert LinesOf(headers)[1..] == LinesOf(headers[1..]);
    }
  }

  lemma {:induction false} HeadersAre(headers: Headers)
    requires forall i :: 0 <= i < |headers| ==> HeaderOk(headers[i])
    ensures HeadersIn(LinesOf(headers)) == AllAsRead(headers)
    decreases |headers|
  {
    hide HeaderOk, ParseHeader, AsRead;
    if headers != [] {
      HeaderRead(headers[0]);
      HeadersAre(headers[1..]);
      assert LinesOf(headers)[1..] == LinesOf(headers[1..]);
      assert AllAsRead(headers) == [AsRead(headers[0])] + AllAsRead(headers[1..]);
    }
  }

  /** Round trip: a written header multimap is read back in order, equal names too, and the stream is left
      just past the blank line. What is read is what was written exactly when no name or value has a NUL
      and decoding leaves every value alone. */
  lemma {:induction false} RoundTrip(headers: Headers, before: Headers, rest: string, ending: int)
    requires Sorted(before + AllAsRead(headers), true) && forall i :: 0 <= i < |headers| ==> HeaderOk(headers[i])
    ensures ReadBlock(HeaderTexts(headers) + CRLF + rest, ending, before) ==
            Block(true, before + AllAsRead(headers), rest, false)
    ensures AllAsRead(headers) == headers <==>
            forall h :: h in headers ==> NUL !in h.0 && NUL !in h.1 && DecodeUrl(h.1, false) == h.1
  {
    hide ReadBlock, AsRead, Emplace, Sorted, HeaderOk;
    TextsAre(headers);
    HeadersAre(headers);
    forall i | 0 <= i < |headers| ensures RawOk(LinesOf(headers)[i]) && RawFits(LinesOf(headers)[i]) {
      HeaderRead(headers[i]);
    }
    Assoc(HeaderTexts(headers), CRLF, rest);
    AnyBlock(LinesOf(headers), rest, ending, before);
    EmplaceSortedAll(before, AllAsRead(headers), true);
    forall h | h in headers
      ensures AsRead(h) == h <==> NUL !in h.0 && NUL !in h.1 && DecodeUrl(h.1, false) == h.1
    {
      SameAsRead(h);
    }
  }

  lemma SameAsRead(h: (string, string))
    ensures AsRead(h) == h <==> NUL !in h.0 && NUL !in h.1 && DecodeUrl(h.1, false) == h.1
  {
    hide DecodeUrl, CStr;
    CutIs(h.0);
    CutIs(h.1);
    DecodeShrinks(CStr(h.1), false);
  }

  lemma CutIs(s: string)
    ensures if NUL in s then |CStr(s)| < |s| else CStr(s) == s
  {
    if FirstNul(s) == |s| { assert s[..|s|] == s; }
  }
}
