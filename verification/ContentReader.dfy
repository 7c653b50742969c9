/** Reading bodies: `read_content_with_length` and `read_content_chunked`, as functions of the plain byte
    sequence under the stream, and as loops over `SocketStream` that compute them. */
module ContentReader {
  import opened Text
  import opened Numerals
  import opened SocketStream
  import opened LineReader
  import opened Bytes

  const RECV_BUFSIZ := 4096
  const ULONG_MAX := 0xFFFF_FFFF_FFFF_FFFF

  // ---- strtoul ----------------------------------------------------------------------------------

  function AfterPrefix(s: string): string {
    if |s| >= 3 && s[0] == '0' && (s[1] == 'x' || s[1] == 'X') && IsDigit(s[2], 16) then s[2..] else s
  }

  /** The longest run of hexadecimal digits at the front. */
  function HexRun(s: string): (r: string)
    ensures AllDigits(r, 16)
  {
    if s != "" && IsDigit(s[0], 16) then [s[0]] + HexRun(s[1..]) else ""
  }

  /** `strtoul(s, &end, 16)`; none when `end` stays at the start. Out of range gives ULONG_MAX, a minus
      sign negates modulo 2^64. */
  function StrToUl16(s: string): (r: Option<nat>)
    ensures r.Some? ==> r.value <= ULONG_MAX
  {
    var t := SkipSpaces(s);
    var signed := t != "" && (t[0] == '+' || t[0] == '-');
    var digits := HexRun(AfterPrefix(if signed then t[1..] else t));
    if digits == "" then None
    else
      var v := Value(digits, 16);
      if v > ULONG_MAX then Some(ULONG_MAX)
      else if signed && t[0] == '-' && v > 0 then Some(ULONG_MAX + 1 - v)
      else Some(v)
  }

  lemma {:induction false} HexRunIs(digits: string, rest: string)
    requires AllDigits(digits, 16) && (rest != "" ==> !IsDigit(rest[0], 16))
    ensures HexRun(digits + rest) == digits
  {
    if digits == "" {
      assert digits + rest == rest;
    } else {
      assert (digits + rest)[1..] == digits[1..] + rest;
      HexRunIs(digits[1..], rest);
    }
  }

  lemma DigitsAreNotSpace(c: char)
    requires IsDigit(c, 16)
    ensures !IsSpace(c) && c != '+' && c != '-' && c != 'x' && c != 'X'
  {
  }

  lemma {:induction false} NumeralRead(digits: string)
    requires digits != "" && AllDigits(digits, 16)
    ensures HexRun(AfterPrefix(SkipSpaces(digits + CRLF))) == digits
    ensures SkipSpaces(digits + CRLF) == digits + CRLF && digits[0] != '+' && digits[0] != '-'
  {
    var s := digits + CRLF;
    DigitsAreNotSpace(digits[0]);
    assert s[0] == digits[0];
    if |digits| >= 2 {
      DigitsAreNotSpace(digits[1]);
      assert s[1] == digits[1];
    }
    HexRunIs(digits, CRLF);
  }

  lemma {:induction false} NumeralStrToUl(digits: string, v: nat)
    requires digits != "" && AllDigits(digits, 16) && Value(digits, 16) == v && v <= ULONG_MAX
    ensures StrToUl16(digits + CRLF) == Some(v)
  {
    NumeralRead(digits);
    assert (digits + CRLF)[0] == digits[0];
  }

  /** A size line written by the chunked writer is read back, however long. */
  lemma {:induction false} SizeLineRead(n: nat)
    requires n <= ULONG_MAX
    ensures StrToUl16(Digits(n, 16) + CRLF) == Some(n)
  {
    DigitsRead(n, 16);
    NumeralStrToUl(Digits(n, 16), n);
  }

  /** What `strtoul` reads as a number: white space, a sign, a prefix, digits, and text they end at. */
  predicate IsNumber(space: string, sign: string, prefix: string, digits: string, rest: string) {
    && (forall i :: 0 <= i < |space| ==> IsSpace(space[i]))
    && (sign == "" || sign == "+" || sign == "-")
    && (prefix == "" || prefix == "0x" || prefix == "0X")
    && digits != "" && AllDigits(digits, 16) && (rest != "" ==> !IsDigit(rest[0], 16))
    && (prefix == "" && digits == "0" && |rest| >= 2 && (rest[0] == 'x' || rest[0] == 'X') ==> !IsDigit(rest[1], 16))
  }

  lemma {:induction false} SpaceSkipped(space: string, rest: string)
    requires forall i :: 0 <= i < |space| ==> IsSpace(space[i])
    requires rest != "" ==> !IsSpace(rest[0])
    ensures SkipSpaces(space + rest) == rest
  {
    if space == "" {
      assert space + rest == rest;
    } else {
      assert (space + rest)[1..] == space[1..] + rest;
      SpaceSkipped(space[1..], rest);
    }
  }

  lemma {:induction false} PrefixSkipped(prefix: string, digits: string, rest: string)
    requires IsNumber("", "", prefix, digits, rest)
    ensures HexRun(AfterPrefix(prefix + (digits + rest))) == digits
  {
    var t := digits + rest;
    DigitsAreNotSpace(digits[0]);
    if |digits| > 1 { DigitsAreNotSpace(digits[1]); }
    assert t[0] == digits[0];
    if prefix == "" {
      assert prefix + t == t;
      if |digits| == 1 && |t| >= 3 {
        assert t[1] == rest[0] && t[2] == rest[1];
        assert digits[0] == '0' ==> digits == "0";
      } else if |digits| > 1 {
        assert t[1] == digits[1];
      }
    } else {
      assert (prefix + t)[2] == t[0] && (prefix + t)[2..] == t;
    }
    HexRunIs(digits, rest);
  }

  /** A number in any form is read: white space and a sign in front, a prefix, leading zeros and digits of
      either case in it, anything after it. Too large ones give the largest; a minus sign negates. */
  lemma {:induction false} StrToUlIs(space: string, sign: string, prefix: string, digits: string, rest: string)
    requires IsNumber(space, sign, prefix, digits, rest)
    ensures var v := Value(digits, 16);
            StrToUl16(space + (sign + (prefix + (digits + rest)))) ==
            Some(if v > ULONG_MAX then ULONG_MAX
                 else if sign == "-" && v > 0 then ULONG_MAX + 1 - v
                 else v)
  {
    hide HexRun, AfterPrefix, SkipSpaces, Value;
    var u := prefix + (digits + rest);
    var t := sign + u;
    DigitsAreNotSpace(digits[0]);
    assert u[0] == (if prefix == "" then digits[0] else '0');
    assert sign == "" ==> t == u;
    assert sign != "" ==> t[0] == sign[0] && t[1..] == u;
    SpaceSkipped(space, t);
    PrefixSkipped(prefix, digits, rest);
  }

  /** Nothing else is read as a number. */
  lemma {:induction false} StrToUlNone(space: string, sign: string, rest: string)
    requires forall i :: 0 <= i < |space| ==> IsSpace(space[i])
    requires sign == "" || sign == "+" || sign == "-"
    requires rest != "" ==> !IsDigit(rest[0], 16) && !IsSpace(rest[0])
    requires rest != "" && sign == "" ==> rest[0] != '+' && rest[0] != '-'
    ensures StrToUl16(space + (sign + rest)) == None
  {
    hide SkipSpaces, Value;
    var t := sign + rest;
    assert sign == "" ==> t == rest;
    assert sign != "" ==> t[0] == sign[0] && t[1..] == rest;
    SpaceSkipped(space, t);
  }

  // ---- The plain reading -------------------------------------------------------------------------

  /** How a read of a body ends: success or not, the content delivered, the bytes left. */
  datatype Reading = Reading(ok: bool, content: string, rest: string)

  function Delivered(before: string, r: Reading): Reading { r.(content := before + r.content) }

  /** `read_content_chunked` from the first size line on. A chunk not followed by a line end ends the
      body successfully; a size of zero needs its blank line. */
  function Chunks(s: string, ending: int): Reading
    decreases |s|
  {
    if !HasLine(s, ending) then Reading(false, "", s)
    else
      var k := LineLength(s);
      var rest := s[k..];
      match StrToUl16(s[..k])
      case None => Reading(false, "", rest)
      case Some(n) =>
        if n == ULONG_MAX then Reading(false, "", rest)
        else if n == 0 then Reading(HasLine(rest, ending) && rest[..LineLength(rest)] == CRLF, "",
                                    rest[LineLength(rest)..])
        else if n > |rest| then Reading(false, rest, "")
        else AfterChunk(rest[..n], rest[n..], ending)
  }

  function AfterChunk(chunk: string, s: string, ending: int): Reading
    decreases |s|, 0
  {
    var k := LineLength(s);
    if !HasLine(s, ending) then Reading(false, chunk, s)
    else if s[..k] != CRLF then Reading(true, chunk, s[k..])
    else Delivered(chunk, Chunks(s[k..], ending))
  }

  /** One chunk and the blank line after it, then the rest of the body. */
  lemma {:induction false} ChunksStep(s: string, n: nat, ending: int)
    requires HasLine(s, ending) && StrToUl16(s[..LineLength(s)]) == Some(n) && 0 < n < ULONG_MAX
    requires n <= |s[LineLength(s)..]| && HasLine(s[LineLength(s)..][n..], ending)
    ensures var rest := s[LineLength(s)..];
            var after := rest[n..];
            var k := LineLength(after);
            && (after[..k] != CRLF ==> Chunks(s, ending) == Reading(true, rest[..n], after[k..]))
            && (after[..k] == CRLF ==> Chunks(s, ending) == Delivered(rest[..n], Chunks(after[k..], ending)))
  {
  }

  /** The other ways the next size line ends the body: no line, a bad size, the last chunk, a chunk cut
      short or not followed by a line. */
  lemma {:induction false} ChunksNoLine(s: string, ending: int)
    requires !HasLine(s, ending)
    ensures Chunks(s, ending) == Reading(false, "", s)
  {
  }

  lemma {:induction false} ChunksBadSize(s: string, ending: int)
    requires HasLine(s, ending)
    requires var size := StrToUl16(s[..LineLength(s)]); size == None || size.value == ULONG_MAX
    ensures Chunks(s, ending) == Reading(false, "", s[LineLength(s)..])
  {
    hide LineLength, StrToUl16;
  }

  lemma {:induction false} ChunksLast(s: string, ending: int)
    requires HasLine(s, ending) && StrToUl16(s[..LineLength(s)]) == Some(0)
    ensures var rest := s[LineLength(s)..];
            Chunks(s, ending) ==
            Reading(HasLine(rest, ending) && rest[..LineLength(rest)] == CRLF, "", rest[LineLength(rest)..])
  {
    hide LineLength, StrToUl16;
  }

  lemma {:induction false} ChunksCut(s: string, n: nat, ending: int)
    requires HasLine(s, ending) && StrToUl16(s[..LineLength(s)]) == Some(n) && 0 < n < ULONG_MAX
    requires var rest := s[LineLength(s)..]; n > |rest| || !HasLine(rest[n..], ending)
    ensures var rest := s[LineLength(s)..];
            !Chunks(s, ending).ok && Chunks(s, ending).content == rest[..if n <= |rest| then n else |rest|]
  {
    hide LineLength, StrToUl16;
    var rest := s[LineLength(s)..];
    assert rest[..|rest|] == rest;
  }

  // ---- What any chunked body means ---------------------------------------------------------------

  /** A chunk as it may be sent: a size line up to its line feed, with anything `strtoul` reads the size
      from, such as an extension, and the data. */
  datatype RawChunk = RawChunk(line: string, data: string)

  predicate SizeIs(line: string, n: nat) { '\n' !in line && StrToUl16(line + "\n") == Some(n) }

  /** A size may have leading zeros, digits of either case, and a chunk extension after it. */
  lemma {:induction false} SizeWithExtension(digits: string, ext: string)
    requires digits != "" && AllDigits(digits, 16) && Value(digits, 16) <= ULONG_MAX && '\n' !in ext
    requires ext != "" ==> !IsDigit(ext[0], 16) && ext[0] != 'x' && ext[0] != 'X'
    ensures SizeIs(digits + ext, Value(digits, 16))
  {
    hide StrToUl16, Value;
    var rest := ext + "\n";
    assert rest[0] == if ext == "" then '\n' else ext[0];
    StrToUlIs("", "", "", digits, rest);
    assert "" + ("" + ("" + (digits + rest))) == digits + ext + "\n";
    assert forall k :: 0 <= k < |digits| ==> IsDigit(digits[k], 16);
  }

  predicate RawOk(c: RawChunk) { 0 < |c.data| < ULONG_MAX && SizeIs(c.line, |c.data|) }

  function RawText(chunks: seq<RawChunk>): string {
    if chunks == [] then "" else chunks[0].line + "\n" + (chunks[0].data + (CRLF + RawText(chunks[1..])))
  }

  function RawData(chunks: seq<RawChunk>): string {
    if chunks == [] then "" else chunks[0].data + RawData(chunks[1..])
  }

  /** How a body goes on after its whole chunks: the last chunk's line and the line after it, a size line
      that does not count, a chunk with another line after it than an empty one, or one cut short. */
  datatype RawEnd =
    | LastChunk(line: string, after: string) | BadSize(line: string)
    | Unclosed(c: RawChunk, after: string) | CutShort(line: string, n: nat, data: string)

  predicate EndOk(e: RawEnd) {
    match e
    case LastChunk(line, after) => SizeIs(line, 0) && '\n' !in after
    case BadSize(line) => '\n' !in line && StrToUl16(line + "\n") in {None, Some(ULONG_MAX)}
    case Unclosed(c, after) => RawOk(c) && '\n' !in after && after != "\r"
    case CutShort(line, n, data) => SizeIs(line, n) && |data| < n < ULONG_MAX
  }

  function EndText(e: RawEnd, rest: string): string {
    match e
    case LastChunk(line, after) => line + "\n" + (after + "\n" + rest)
    case BadSize(line) => line + "\n" + rest
    case Unclosed(c, after) => c.line + "\n" + (c.data + (after + "\n" + rest))
    case CutShort(line, _, data) => line + "\n" + data
  }

  lemma {:induction false} LineIn(line: string, rest: string, ending: int)
    requires '\n' !in line
    ensures var s := line + "\n" + rest;
            HasLine(s, ending) && s[..LineLength(s)] == line + "\n" && s[LineLength(s)..] == rest
  {
    LineLengthIs(line, rest);
    assert (line + "\n" + rest)[|line|] == '\n';
  }

  lemma CrlfIs(more: string)
    ensures CRLF + more == "\r" + "\n" + more && CRLF == "\r" + "\n"
  {
  }

  lemma {:induction false} RawChunkRead(c: RawChunk, after: string, more: string, ending: int)
    requires RawOk(c) && '\n' !in after
    ensures var body := Chunks(c.line + "\n" + (c.data + (after + "\n" + more)), ending);
            body == if after == "\r" then Delivered(c.data, Chunks(more, ending)) else Reading(true, c.data, more)
  {
    hide Chunks, StrToUl16, LineLength, HasLine;
    var tail := after + "\n" + more;
    var s := c.line + "\n" + (c.data + tail);
    LineIn(c.line, c.data + tail, ending);
    LineIn(after, more, ending);
    assert (c.data + tail)[..|c.data|] == c.data && (c.data + tail)[|c.data|..] == tail;
    ChunksStep(s, |c.data|, ending);
    CrlfIs("");
    if after + "\n" == CRLF { assert after == (after + "\n")[..|after|] == "\r"; }
  }

  /** How a body ends is read: successfully after the last chunk and its empty line, and also after a chunk
      with some other line after it; and with a failure after a size that does not count, a last chunk
      without its empty line, or too little data. */
  lemma {:induction false} EndRead(e: RawEnd, rest: string, ending: int)
    requires EndOk(e) && (e.CutShort? ==> rest == "")
    ensures Chunks(EndText(e, rest), ending).ok <==> (e.LastChunk? && e.after == "\r") || e.Unclosed?
    ensures Chunks(EndText(e, rest), ending).content ==
            if e.Unclosed? then e.c.data else if e.CutShort? then e.data else ""
    ensures !e.CutShort? ==> Chunks(EndText(e, rest), ending).rest == rest
  {
    hide Chunks, StrToUl16, LineLength, HasLine;
    match e
    case LastChunk(line, after) =>
      LineIn(line, after + "\n" + rest, ending);
      LineIn(after, rest, ending);
      ChunksLast(EndText(e, rest), ending);
      CrlfIs("");
      if after + "\n" == CRLF { assert after == (after + "\n")[..|after|] == "\r"; }
    case BadSize(line) =>
      LineIn(line, rest, ending);
      ChunksBadSize(EndText(e, rest), ending);
    case Unclosed(c, after) =>
      RawChunkRead(c, after, rest, ending);
    case CutShort(line, n, data) =>
      LineIn(line, data, ending);
      ChunksCut(EndText(e, rest), n, ending);
      assert data[..|data|] == data;
  }

  /** What `read_content_chunked` reads of any body: the data of its whole chunks, however their size lines
      are written, and then what the end gives. */
  lemma {:induction false} ChunkedBody(chunks: seq<RawChunk>, more: string, ending: int)
    requires forall i :: 0 <= i < |chunks| ==> RawOk(chunks[i])
    ensures Chunks(RawText(chunks) + more, ending) == Delivered(RawData(chunks), Chunks(more, ending))
    decreases |chunks|
  {
    hide Chunks, RawOk;
    if chunks == [] {
      assert RawText(chunks) + more == more;
      DeliveredIs("", Chunks(more, ending));
      assert "" + Chunks(more, ending).content == Chunks(more, ending).content;
    } else {
      var c, later := chunks[0], RawText(chunks[1..]) + more;
      ChunkedBody(chunks[1..], more, ending);
      CrlfIs(later);
      RawChunkRead(c, "\r", later, ending);
      Assoc(CRLF, RawText(chunks[1..]), more);
      Assoc(c.data, CRLF + RawText(chunks[1..]), more);
      Assoc(c.line + "\n", c.data + (CRLF + RawText(chunks[1..])), more);
      DeliveredTwice(c.data, RawData(chunks[1..]), Chunks(more, ending));
    }
  }

  lemma DeliveredIs(a: string, r: Reading)
    ensures Delivered(a, r) == Reading(r.ok, a + r.content, r.rest)
  {
  }

  lemma DeliveredTwice(a: string, b: string, r: Reading)
    ensures Delivered(a, Delivered(b, r)) == Delivered(a + b, r)
  {
    assert a + (b + r.content) == a + b + r.content;
  }

  // ---- The loops -------------------------------------------------------------------------------

  /** One read of the body loop. */
  method ReadSome(strm: SocketStream, left: nat) returns (n: int, data: string)
    requires strm.Valid() && left > 0
    modifies strm, strm.sock, strm.readBuff
    ensures strm.Valid()
    ensures n <= 0 ==> old(strm.Rest()) == ""
    ensures n > 0 ==> 0 < |data| <= left && old(strm.Rest()) == data + strm.Rest()
    ensures n > 0 ==> strm.Ending() == old(strm.Ending())
  {
    n, data := strm.Read(if left < RECV_BUFSIZ then left else RECV_BUFSIZ);
  }

  /** `read_content_with_length` into a receiver that never refuses. */
  method ReadContentWithLength(strm: SocketStream, len: nat) returns (ok: bool, content: string)
    requires strm.Valid()
    modifies strm, strm.sock, strm.readBuff
    ensures strm.Valid()
    ensures ok == (len <= |old(strm.Rest())|)
    ensures content == old(strm.Rest())[..if ok then len else |old(strm.Rest())|]
    ensures ok ==> strm.Rest() == old(strm.Rest())[len..] && strm.Ending() == old(strm.Ending())
  {
    content := "";
    ghost var rest, ending := strm.Rest(), strm.Ending();
    while |content| < len
      invariant strm.Valid() && |content| <= len
      invariant rest == content + strm.Rest() && strm.Ending() == ending
      decreases len - |content|
    {
      ghost var ahead := strm.Rest();
      var n, data := ReadSome(strm, len - |content|);
      if n <= 0 {
        assert rest == content;
        return false, content;
      }
      assert content + (data + strm.Rest()) == content + data + strm.Rest();
      content := content + data;
    }
    ok := true;
  }

  /** Read the `n` bytes of a chunk and the line after them. `more` when that line is blank. */
  method ReadChunk(reader: StreamLineReader, n: nat) returns (ok: bool, more: bool, chunk: string)
    requires reader.Valid() && reader.strm.Valid()
    modifies reader, reader.fixedBuffer, reader.strm, reader.strm.sock, reader.strm.readBuff
    ensures reader.Valid() && reader.strm.Valid()
    ensures var rest, ending := old(reader.strm.Rest()), old(reader.strm.Ending());
            && (ok <==> n <= |rest| && HasLine(rest[n..], ending))
            && chunk == rest[..if n <= |rest| then n else |rest|]
            && (ok ==> reader.strm.Ending() == ending)
            && (ok ==> reader.strm.Rest() == rest[n..][LineLength(rest[n..])..])
            && (ok ==> more == (rest[n..][..LineLength(rest[n..])] == CRLF))
  {
    hide LineLength;
    ok, chunk := ReadContentWithLength(reader.strm, n);
    if !ok { return false, false, chunk; }
    ok := reader.Getline();
    more := ok && reader.Line() == CRLF;
  }

  /** `read_content_chunked`. Over any segmentation of the stream it reads what `Chunks` says, and what it
      delivered before a failure is what `Chunks` says too. */
  method ReadContentChunked(strm: SocketStream) returns (ok: bool, content: string)
    requires strm.Valid()
    modifies strm, strm.sock, strm.readBuff
    ensures strm.Valid()
    ensures ok == Chunks(old(strm.Rest()), old(strm.Ending())).ok
    ensures content == Chunks(old(strm.Rest()), old(strm.Ending())).content
    ensures ok ==> strm.Rest() == Chunks(old(strm.Rest()), old(strm.Ending())).rest
  {
    hide StreamLineReader.Valid, StreamLineReader.Line, SocketStream.Valid, SocketStream.Rest, SocketStream.Ending;
    hide StrToUl16, LineLength, Chunks, AfterChunk, Delivered;
    var reader := new StreamLineReader(strm, 16);
    content := "";
    ghost var start, ending := strm.Rest(), strm.Ending();
    ghost var before := start;
    DeliveredIs("", Chunks(start, ending));
    assert "" + Chunks(start, ending).content == Chunks(start, ending).content;
    ok := reader.Getline();
    while ok
      modifies reader, reader.fixedBuffer, strm, strm.sock, strm.readBuff
      invariant strm.Valid() && reader.Valid()
      invariant ok == HasLine(before, ending)
      invariant Chunks(start, ending) == Delivered(content, Chunks(before, ending))
      invariant ok ==> strm.Ending() == ending
      invariant ok ==> reader.Line() == before[..LineLength(before)] && strm.Rest() == before[LineLength(before)..]
      decreases |before|
    {
      DeliveredIs(content, Chunks(before, ending));
      var size := StrToUl16(reader.Line());
      if size == None || size.value == ULONG_MAX {
        ChunksBadSize(before, ending);
        return false, content;
      }
      if size.value == 0 {
        ChunksLast(before, ending);
        ok := reader.Getline();
        if ok { ok := reader.Line() == CRLF; }
        return;
      }
      var read, more, chunk := ReadChunk(reader, size.value);
      if !read {
        ChunksCut(before, size.value, ending);
        return false, content + chunk;
      }
      ChunksStep(before, size.value, ending);
      if !more { return true, content + chunk; }
      before := strm.Rest();
      DeliveredTwice(content, chunk, Chunks(before, ending));
      content := content + chunk;
      ok := reader.Getline();
    }
    ChunksNoLine(before, ending);
    DeliveredIs(content, Chunks(before, ending));
    assert content + "" == content;
  }
}
