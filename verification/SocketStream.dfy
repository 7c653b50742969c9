/** `SocketStream` over a socket that hands out its bytes in any segments, with stalls anywhere and any
    end. On top of its 4 KB read-ahead the stream is the plain byte sequence `Rest()`, ended by
    `Ending()`. */
module SocketStream {
  import Bytes

  const READ_BUFF_SIZE := 4096

  /** What the kernel has in store: bytes that arrive together, or a wait that `select` gives up on. */
  datatype Arrival = Segment(data: string) | Stall

  /** The bytes before the next stall or the end. */
  function BytesOf(script: seq<Arrival>): string {
    if script == [] || script[0].Stall? then "" else script[0].data + BytesOf(script[1..])
  }

  /** What `read` answers when those bytes are used up: 0 at the end of the stream, -1 on a stall or error. */
  function EndingOf(script: seq<Arrival>, broken: bool): (code: int)
    ensures code == 0 || code == -1
  {
    if script == [] then (if broken then -1 else 0)
    else if script[0].Stall? then -1
    else EndingOf(script[1..], broken)
  }

  lemma {:induction false} NothingLeft(broken: bool)
    ensures BytesOf([]) == "" && EndingOf([], broken) == if broken then -1 else 0
  {
  }

  lemma Stalled(script: seq<Arrival>, broken: bool)
    requires script != [] && script[0].Stall?
    ensures BytesOf(script) == "" && EndingOf(script, broken) == -1
  {
  }

  lemma CutSlice(s: string, lo: nat, mid: nat, hi: nat)
    requires lo <= mid <= hi <= |s|
    ensures s[lo..hi] == s[lo..mid] + s[mid..hi]
  {
  }

  predicate NonEmptySegments(script: seq<Arrival>) {
    forall i :: 0 <= i < |script| ==> script[i].Segment? ==> script[i].data != ""
  }

  /** The kernel side of a connected socket. */
  class Socket {
    var script: seq<Arrival>
    const broken: bool
    /** Every byte `recv` has returned. */
    ghost var received: string

    ghost predicate Valid()
      reads this
    {
      NonEmptySegments(script)
    }

    constructor (script: seq<Arrival>, broken: bool)
      requires NonEmptySegments(script)
      ensures Valid() && this.script == script && this.broken == broken && received == ""
    {
      this.script, this.broken, this.received := script, broken, "";
    }

    /** `select` for reading; a stall passes once it has been waited out. */
    method IsReadable() returns (r: bool)
      requires Valid()
      modifies this`script
      ensures Valid()
      ensures r == (old(script) == [] || old(script)[0].Segment?)
      ensures script == if r then old(script) else old(script)[1..]
    {
      r := script == [] || script[0].Segment?;
      if !r { script := script[1..]; }
    }

    /** `recv`: up to `size` bytes of what is there, or the end code. */
    method Recv(size: nat) returns (n: int, data: string)
      requires Valid() && size > 0 && (script == [] || script[0].Segment?)
      modifies this
      ensures Valid() && received == old(received) + data
      ensures old(BytesOf(script)) == data + BytesOf(script)
      ensures EndingOf(script, broken) == old(EndingOf(script, broken))
      ensures old(script) == [] ==> n == EndingOf(script, broken) <= 0 && data == "" && script == []
      ensures old(script) != [] ==> 0 < n <= size && |data| == n
    {
      if script == [] { return if broken then -1 else 0, ""; }
      var front := script[0].data;
      if |front| <= size {
        script := script[1..];
        received := received + front;
        return |front|, front;
      }
      data := front[..size];
      script := [Segment(front[size..])] + script[1..];
      received := received + data;
      assert front == data + front[size..];
      return size, data;
    }
  }

  class SocketStream {
    const sock: Socket
    const readBuff: array<char>
    var readBuffOff: nat
    var readBuffContentSize: nat
    /** Every byte `Read` has returned. */
    ghost var returned: string

    ghost predicate Valid()
      reads this, sock, readBuff
    {
      && sock.Valid()
      && readBuff.Length == READ_BUFF_SIZE
      && readBuffOff <= readBuffContentSize <= READ_BUFF_SIZE
      && sock.received == returned + Window()
    }

    ghost function Window(): string
      reads this, readBuff
      requires readBuffOff <= readBuffContentSize <= readBuff.Length
    {
      readBuff[readBuffOff..readBuffContentSize]
    }

    /** The bytes still to come before the next stall or the end. */
    ghost function Rest(): string
      reads this, sock, readBuff
      requires Valid()
    {
      Window() + BytesOf(sock.script)
    }

    ghost function Ending(): (code: int)
      reads sock
      ensures code == 0 || code == -1
    {
      EndingOf(sock.script, sock.broken)
    }

    constructor (sock: Socket)
      requires sock.Valid() && sock.received == ""
      ensures Valid() && this.sock == sock && fresh(readBuff) && returned == ""
      ensures Rest() == BytesOf(sock.script)
    {
      this.sock := sock;
      readBuff := new char[READ_BUFF_SIZE];
      readBuffOff, readBuffContentSize, returned := 0, 0, "";
    }

    /** Serve a read from the read-ahead. */
    method TakeBuffered(size: nat) returns (n: int, data: string)
      requires Valid() && readBuffOff < readBuffContentSize
      modifies this`readBuffOff, this`returned
      ensures Valid() && returned == old(returned) + data
      ensures n == |data| <= size && (size > 0 ==> n > 0)
      ensures old(Rest()) == data + Rest()
    {
      hide BytesOf, EndingOf, NonEmptySegments;
      var remaining := readBuffContentSize - readBuffOff;
      n := if size <= remaining then size else remaining;
      data := readBuff[readBuffOff..readBuffOff + n];
      CutSlice(readBuff[..], readBuffOff, readBuffOff + n, readBuffContentSize);
      ghost var left := readBuff[readBuffOff + n..readBuffContentSize];
      Bytes.Assoc(data, left, BytesOf(sock.script));
      Bytes.Assoc(returned, data, left);
      readBuffOff := readBuffOff + n;
      returned := returned + data;
    }

    /** The kernel's copy into the read-ahead buffer. */
    method Fill(bytes: string)
      requires |bytes| <= readBuff.Length
      modifies readBuff
      ensures readBuff[..|bytes|] == bytes
    {
      var i := 0;
      while i < |bytes|
        invariant 0 <= i <= |bytes| && readBuff[..i] == bytes[..i]
      {
        readBuff[i] := bytes[i];
        i := i + 1;
      }
      assert bytes[..i] == bytes;
    }

    /** Read ahead into the buffer, hand out the front, keep the rest. */
    method ReadAhead(size: nat) returns (n: int, data: string)
      requires Valid() && readBuffOff == readBuffContentSize == 0 && size < READ_BUFF_SIZE
      requires sock.script == [] || sock.script[0].Segment?
      modifies this, sock, readBuff
      ensures Valid() && returned == old(returned) + data && Ending() == old(Ending())
      ensures old(Rest()) == data + Rest()
      ensures old(Rest()) == "" ==> n == Ending() && data == "" && sock.script == []
      ensures old(Rest()) != "" ==> n == |data| <= size && (size > 0 ==> n > 0)
    {
      hide BytesOf, EndingOf;
      var bytes: string;
      n, bytes := sock.Recv(READ_BUFF_SIZE);
      if n <= 0 {
        NothingLeft(sock.broken);
        return n, "";
      }
      Fill(bytes);
      if n <= size {
        returned := returned + bytes;
        return n, bytes;
      }
      readBuffOff, readBuffContentSize := size, n;
      data := readBuff[..size];
      assert readBuff[..n] == bytes && bytes == data + readBuff[size..n];
      returned := returned + data;
      n := size;
    }

    /** `read`. The caller sees the plain byte sequence: any positive request gets at least one byte of
        what is left and no more than it asked, in order; used up, it gets the ending. */
    method Read(size: nat) returns (n: int, data: string)
      requires Valid()
      modifies this, sock, readBuff
      ensures Valid() && returned == old(returned) + data && n <= size
      ensures old(Rest()) != "" ==> n == |data| && (size > 0 ==> n > 0) && Ending() == old(Ending())
      ensures old(Rest()) != "" ==> old(Rest()) == data + Rest()
      ensures old(Rest()) == "" ==> n == old(Ending()) && data == ""
      ensures old(Rest()) == "" && old(Ending()) == 0 ==> Rest() == "" && Ending() == 0
    {
      hide BytesOf, EndingOf;
      if readBuffOff < readBuffContentSize {
        n, data := TakeBuffered(size);
        return;
      }
      NothingLeft(sock.broken);
      ghost var before := sock.script;
      var readable := sock.IsReadable();
      if !readable {
        Stalled(before, sock.broken);
        return -1, "";
      }
      readBuffOff, readBuffContentSize := 0, 0;
      if size < READ_BUFF_SIZE {
        n, data := ReadAhead(size);
      } else {
        n, data := sock.Recv(size);
        returned := returned + data;
      }
    }
  }
}
