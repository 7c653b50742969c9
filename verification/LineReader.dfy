/** `stream_line_reader`: lines off a stream, in a fixed buffer that spills to a growable one. */
module LineReader {
  import Bytes
  import opened SocketStream

  /** The bytes up to and including the first line feed; all of them when there is none. */
  function LineLength(s: string): (k: nat)
    ensures k <= |s| && (s != "" ==> k > 0)
    ensures '\n' in s ==> k > 0 && s[k - 1] == '\n' && '\n' !in s[..k - 1]
    ensures '\n' !in s ==> k == |s|
  {
    if s == "" then 0 else if s[0] == '\n' then 1 else LineLength(s[1..]) + 1
  }

  /** Whether `getline` succeeds on these bytes with this ending. */
  predicate HasLine(s: string, ending: int) { '\n' in s || (ending == 0 && s != "") }

  lemma {:induction false} LineLengthIs(line: string, rest: string)
    requires '\n' !in line
    ensures LineLength(line + "\n" + rest) == |line| + 1
  {
    var s := line + "\n" + rest;
    if line == "" {
      assert s[0] == '\n';
    } else {
      LineLengthIs(line[1..], rest);
      assert s[1..] == line[1..] + "\n" + rest;
    }
  }

  /** No line feed yet. */
  predicate OneLine(s: string) { '\n' !in s }

  lemma TakenByte(s: string, line: string, ahead: string, byte: char, rest: string)
    requires s == line + ahead && ahead == [byte] + rest && OneLine(line)
    ensures s == line + [byte] + rest && |rest| < |ahead|
    ensures byte != '\n' ==> OneLine(line + [byte])
  {
    Bytes.Assoc(line, [byte], rest);
  }

  /** What `getline` leaves and returns when it has met a line feed, and when it has not. */
  lemma FirstLine(s: string, line: string, rest: string, ending: int)
    requires s == line + ['\n'] + rest && OneLine(line)
    ensures HasLine(s, ending) && s[..LineLength(s)] == line + ['\n'] && s[LineLength(s)..] == rest
  {
    LineLengthIs(line, rest);
    assert s[|line|] == '\n';
  }

  lemma NoLine(s: string, line: string, ending: int)
    requires s == line + "" && OneLine(line)
    ensures s == line
    ensures HasLine(s, ending) <==> ending == 0 && s != ""
    ensures s[..LineLength(s)] == s && s[LineLength(s)..] == ""
  {
  }

  class StreamLineReader {
    const strm: SocketStream
    const fixedBuffer: array<char>
    var fixedBufferUsedSize: nat
    var growableBuffer: string

    ghost predicate Valid()
      reads this, fixedBuffer
    {
      && fixedBuffer.Length >= 2
      && fixedBufferUsedSize < fixedBuffer.Length
      && fixedBuffer != strm.readBuff
      && (fixedBufferUsedSize > 0 ==> fixedBuffer[fixedBufferUsedSize] == '\0')
      && (growableBuffer != "" ==> fixedBufferUsedSize == fixedBuffer.Length - 1)
    }

    /** `ptr()` and `size()` together. */
    function Line(): string
      reads this, fixedBuffer
      requires Valid()
    {
      if growableBuffer == "" then fixedBuffer[..fixedBufferUsedSize] else growableBuffer
    }

    constructor (strm: SocketStream, fixedBufferSize: nat)
      requires fixedBufferSize >= 2
      ensures Valid() && this.strm == strm && fresh(fixedBuffer) && fixedBuffer.Length == fixedBufferSize
    {
      this.strm := strm;
      fixedBuffer := new char[fixedBufferSize];
      fixedBufferUsedSize, growableBuffer := 0, "";
    }

    method Append(c: char)
      requires Valid()
      modifies this, fixedBuffer
      ensures Valid() && Line() == old(Line()) + [c]
    {
      if fixedBufferUsedSize < fixedBuffer.Length - 1 {
        fixedBuffer[fixedBufferUsedSize] := c;
        fixedBufferUsedSize := fixedBufferUsedSize + 1;
        fixedBuffer[fixedBufferUsedSize] := '\0';
      } else {
        if growableBuffer == "" {
          assert fixedBuffer[fixedBufferUsedSize] == '\0';
          growableBuffer := fixedBuffer[..fixedBufferUsedSize];
        }
        growableBuffer := growableBuffer + [c];
      }
    }

    method Clear()
      requires Valid()
      modifies this
      ensures Valid() && Line() == ""
    {
      fixedBufferUsedSize, growableBuffer := 0, "";
    }

    /** One turn of the loop: read a byte and append it. */
    method TakeByte() returns (n: int, byte: char)
      requires Valid() && strm.Valid()
      modifies this, fixedBuffer, strm, strm.sock, strm.readBuff
      ensures Valid() && strm.Valid()
      ensures old(strm.Rest()) == "" ==> n == old(strm.Ending()) && Line() == old(Line())
      ensures old(strm.Rest()) == "" && old(strm.Ending()) == 0 ==> strm.Rest() == "" && strm.Ending() == 0
      ensures old(strm.Rest()) != "" ==> n == 1 && Line() == old(Line()) + [byte]
      ensures old(strm.Rest()) != "" ==> old(strm.Rest()) == [byte] + strm.Rest() && strm.Ending() == old(strm.Ending())
    {
      var data: string;
      n, data := strm.Read(1);
      if n <= 0 { return n, '\0'; }
      byte := data[0];
      assert data == [byte];
      Append(byte);
    }

    /** `getline`, one byte at a time. A stalled or broken stream loses the partial line; the end of the
        stream ends the last one. */
    method Getline() returns (ok: bool)
      requires Valid() && strm.Valid()
      modifies this, fixedBuffer, strm, strm.sock, strm.readBuff
      ensures Valid() && strm.Valid()
      ensures ok == HasLine(old(strm.Rest()), old(strm.Ending()))
      ensures ok || old(strm.Ending()) == 0 ==>
                strm.Rest() == old(strm.Rest())[LineLength(old(strm.Rest()))..] && strm.Ending() == old(strm.Ending())
      ensures ok ==> Line() == old(strm.Rest())[..LineLength(old(strm.Rest()))]
    {
      assert OneLine("");
      hide Valid, Line, SocketStream.Valid, SocketStream.Rest, SocketStream.Ending, LineLength, HasLine, OneLine;
      Clear();
      ghost var rest, ending := strm.Rest(), strm.Ending();
      while true
        invariant Valid() && strm.Valid()
        invariant rest == Line() + strm.Rest() && strm.Ending() == ending
        invariant OneLine(Line())
        decreases |strm.Rest()|
      {
        ghost var line, ahead := Line(), strm.Rest();
        var n, byte := TakeByte();
        if n < 0 {
          NoLine(rest, line, ending);
          return false;
        } else if n == 0 {
          NoLine(rest, line, ending);
          return Line() != "";
        }
        TakenByte(rest, line, ahead, byte, strm.Rest());
        if byte == '\n' {
          FirstLine(rest, line, strm.Rest(), ending);
          return true;
        }
      }
    }
  }
}
