/** `MultipartFormDataParser` in the source's own form: an in-place buffer with a live window, a state
    number and the file info under construction. Every method is proved against `Multipart`. */
module MultipartParser {
  import opened Bytes
  import opened Text
  import opened Multipart

  lemma DelimiterNotEmpty(boundary: string)
    ensures Delimiter(boundary) != ""
  {
  }

  lemma MismatchAt(w: string, s: string, i: nat)
    requires s != "" && i < |w| && w[i] != s[0]
    ensures !At(w, s, i)
  {
    if i + |s| <= |w| {
      assert w[i..i + |s|][0] == w[i];
    }
  }

  class MultipartFormDataParser {
    var boundary: string
    var state: State
    var isValid: bool
    var file: FileInfo
    var buf: array<char>
    var bufSpos: nat
    var bufEpos: nat
    /** The callback calls made so far. */
    var calls: seq<Call>

    ghost predicate Valid()
      reads `buf, `bufSpos, `bufEpos
    {
      bufSpos <= bufEpos <= buf.Length
    }

    ghost function Window(): (w: string)
      reads `buf, `bufSpos, `bufEpos, buf
      requires Valid()
      ensures |w| == bufEpos - bufSpos
    {
      buf[bufSpos..bufEpos]
    }

    ghost function View(): Config
      reads this, buf
      requires Valid()
    {
      Config(state, isValid, file, Window(), calls)
    }

    constructor ()
      ensures Valid() && fresh(buf) && View() == INITIAL && boundary == ""
    {
      boundary, state, isValid, file, calls := "", InitialBoundary, false, NO_FILE, [];
      buf := new char[0];
      bufSpos, bufEpos := 0, 0;
    }

    method SetBoundary(boundary': string)
      requires Valid()
      modifies this`boundary
      ensures boundary == boundary' && Valid() && View() == old(View())
    {
      boundary := boundary';
    }

    lemma WindowAt(pos: nat)
      requires Valid() && bufSpos <= pos < bufEpos
      ensures Window()[pos - bufSpos] == buf[pos]
    {
    }

    method BufStartWith(pos: nat, s: string) returns (r: bool)
      requires Valid() && bufSpos <= pos <= bufEpos
      ensures r == At(Window(), s, pos - bufSpos)
    {
      if bufEpos - pos < |s| { return false; }
      var i := 0;
      while i < |s|
        invariant 0 <= i <= |s|
        invariant forall k :: 0 <= k < i ==> buf[pos + k] == s[k]
      {
        assert Window()[pos - bufSpos + i] == buf[pos + i];
        if buf[pos + i] != s[i] {
          assert Window()[pos - bufSpos..pos - bufSpos + |s|][i] != s[i];
          return false;
        }
        i := i + 1;
      }
      ghost var at := Window()[pos - bufSpos..pos - bufSpos + |s|];
      forall k | 0 <= k < |s| ensures at[k] == s[k] {
        assert Window()[pos - bufSpos + k] == buf[pos + k];
      }
      r := true;
    }

    method BufFind(s: string) returns (r: nat)
      requires Valid() && s != ""
      ensures r == Find(Window(), s)
    {
      hide Find;
      var c := s[0];
      var off := bufSpos;
      ghost var w := Window();
      while off < bufEpos
        invariant bufSpos <= off <= bufEpos
        invariant forall i :: 0 <= i < off - bufSpos ==> !At(w, s, i)
      {
        var pos := off;
        while pos < bufEpos && buf[pos] != c
          invariant off <= pos <= bufEpos
          invariant forall i :: 0 <= i < pos - bufSpos ==> !At(w, s, i)
        {
          WindowAt(pos);
          MismatchAt(w, s, pos - bufSpos);
          pos := pos + 1;
        }
        if pos == bufEpos || |s| > bufEpos - pos {
          assert forall i :: pos - bufSpos <= i ==> !At(w, s, i);
          FindIs(w, s, |w|);
          return bufEpos - bufSpos;
        }
        var found := BufStartWith(pos, s);
        if found {
          FindIs(w, s, pos - bufSpos);
          return pos - bufSpos;
        }
        off := pos + 1;
      }
      FindIs(w, s, |w|);
      r := bufEpos - bufSpos;
    }

    /** The first loop of `buf_append`: the window moves to the front, in place. */
    method MoveDown()
      requires Valid() && bufSpos > 0
      modifies this`bufSpos, this`bufEpos, buf
      ensures Valid() && bufSpos == 0 && Window() == old(Window())
    {
      var remaining := bufEpos - bufSpos;
      ghost var w := Window();
      var i := 0;
      while i < remaining
        modifies buf
        invariant 0 <= i <= remaining
        invariant forall k :: 0 <= k < i ==> buf[k] == w[k]
        invariant forall k :: i <= k < remaining ==> buf[bufSpos + k] == w[k]
      {
        buf[i] := buf[bufSpos + i];
        i := i + 1;
      }
      bufSpos, bufEpos := 0, remaining;
    }

    method BufAppend(data: string)
      requires Valid()
      modifies this`buf, this`bufSpos, this`bufEpos, buf
      ensures Valid() && Window() == old(Window()) + data
      ensures fresh(buf) || buf == old(buf)
    {
      var remaining := bufEpos - bufSpos;
      ghost var w := Window();
      if remaining > 0 && bufSpos > 0 { MoveDown(); }
      bufSpos, bufEpos := 0, remaining;
      assert Window() == w;
      if remaining + |data| > buf.Length { Resize(remaining + |data|); }
      CopyIn(data);
    }

    /** The second loop of `buf_append`. */
    method CopyIn(data: string)
      requires Valid() && bufSpos == 0 && bufEpos + |data| <= buf.Length
      modifies this`bufEpos, buf
      ensures Valid() && Window() == old(Window()) + data
    {
      ghost var w := Window();
      var i := 0;
      while i < |data|
        modifies buf
        invariant 0 <= i <= |data|
        invariant forall k :: 0 <= k < bufEpos ==> buf[k] == w[k]
        invariant forall k :: 0 <= k < i ==> buf[bufEpos + k] == data[k]
      {
        buf[bufEpos + i] := data[i];
        i := i + 1;
      }
      bufEpos := bufEpos + |data|;
    }

    /** `std::string::resize`: the kept bytes move to a larger block. */
    method Resize(n: nat)
      requires Valid() && n > buf.Length && bufSpos == 0
      modifies this`buf
      ensures Valid() && fresh(buf) && buf.Length == n && Window() == old(Window())
    {
      var bigger := new char[n];
      var i := 0;
      while i < buf.Length
        modifies bigger
        invariant 0 <= i <= buf.Length
        invariant bigger[..i] == buf[..i]
      {
        bigger[i] := buf[i];
        i := i + 1;
      }
      assert bigger[..i][..bufEpos] == buf[..i][..bufEpos];
      buf := bigger;
    }

    method BufErase(n: nat)
      requires Valid() && n <= bufEpos - bufSpos
      modifies this`bufSpos
      ensures Valid() && View() == Erase(old(View()), n)
    {
      bufSpos := bufSpos + n;
    }

    /** The content callback on the first `n` bytes of the window. */
    method ContentCallback(n: nat, answer: Callbacks) returns (ok: bool)
      requires Valid() && n <= bufEpos - bufSpos
      modifies this`calls
      ensures View() == HandOn(old(View()), n) && ok == answer(calls)
    {
      assert buf[bufSpos..bufSpos + n] == Window()[..n];
      calls := calls + [ContentCall(buf[bufSpos..bufSpos + n])];
      ok := answer(calls);
    }

    /** Take the header line of `pos` bytes and its line end off the window. */
    method ReadLine(pos: nat)
      requires Valid() && pos + 2 <= bufEpos - bufSpos
      modifies this`file, this`bufSpos
      ensures Valid()
      ensures View() == LineTaken(old(View()), pos)
    {
      var line := buf[bufSpos..bufSpos + pos];
      assert line == Window()[..pos];
      file := ReadHeaderLine(file, line);
      BufErase(pos + 2);
    }

    method HeaderCallback(answer: Callbacks) returns (ok: bool)
      requires Valid() && 2 <= bufEpos - bufSpos
      modifies this`state, this`isValid, this`bufSpos, this`calls
      ensures Valid()
      ensures HeadersEnd(old(View()), answer) == if ok then Again(View()) else Return(View(), false)
    {
      calls := calls + [HeaderCall(file)];
      ok := answer(calls);
      if !ok {
        isValid := false;
      } else {
        BufErase(2);
        state := Body;
      }
    }

    /** The inner loop of the header state. */
    method ReadHeaders(answer: Callbacks) returns (more: bool, ok: bool)
      requires Valid() && state == Headers
      modifies this`state, this`isValid, this`file, this`bufSpos, this`calls
      ensures Valid()
      ensures HeaderLines(old(View()), answer) == if more then Again(View()) else Return(View(), ok)
    {
      var pos := BufFind(CRLF);
      while 0 < pos < bufEpos - bufSpos
        invariant Valid() && state == Headers
        invariant pos == Find(Window(), CRLF)
        invariant HeaderLines(View(), answer) == HeaderLines(old(View()), answer)
        decreases bufEpos - bufSpos
      {
        ReadLine(pos);
        pos := BufFind(CRLF);
      }
      if pos < bufEpos - bufSpos {
        ok := HeaderCallback(answer);
        return ok, ok;
      }
      return false, true;
    }

    /** Second half of the body state. */
    method ReadToDelimiter(answer: Callbacks) returns (more: bool, ok: bool)
      requires Valid() && state == Body
      modifies this`state, this`isValid, this`bufSpos, this`calls
      ensures Valid()
      ensures DelimiterTurn(old(View()), boundary, answer) == if more then Again(View()) else Return(View(), ok)
    {
      hide Find, Delimiter, Window;
      var delimiter := Delimiter(boundary);
      DelimiterNotEmpty(boundary);
      if |delimiter| > bufEpos - bufSpos { return false, true; }
      var pos := BufFind(delimiter);
      var found := pos < bufEpos - bufSpos;
      ok := ContentCallback(if found then pos else |delimiter|, answer);
      if !ok {
        isValid := false;
        return false, false;
      }
      BufErase((if found then pos else 0) + |delimiter|);
      if found { state := Boundary; }
      return true, true;
    }

    /** The body state: text up to the next dashes, then up to the delimiter or past a false alarm. */
    method ReadBody(answer: Callbacks) returns (more: bool, ok: bool)
      requires Valid() && state == Body
      modifies this`state, this`isValid, this`bufSpos, this`calls
      ensures Valid()
      ensures BodyTurn(old(View()), boundary, answer) == if more then Again(View()) else Return(View(), ok)
    {
      var dash := CRLF + "--";
      if |dash| > bufEpos - bufSpos { return false, true; }
      var pos := BufFind(dash);
      ok := ContentCallback(pos, answer);
      if !ok {
        isValid := false;
        return false, false;
      }
      BufErase(pos);
      more, ok := ReadToDelimiter(answer);
    }

    method TryErase(pattern: string) returns (short: bool, taken: bool)
      requires Valid()
      modifies this`bufSpos
      ensures Valid()
      ensures Expect(old(View()), pattern) == if short then Short else if taken then Taken(View()) else Differs
      ensures short || !taken ==> View() == old(View())
    {
      if |pattern| > bufEpos - bufSpos { return true, false; }
      var starts := BufStartWith(bufSpos, pattern);
      if starts { BufErase(|pattern|); }
      return false, starts;
    }

    method ReadOpening() returns (more: bool, ok: bool)
      requires Valid()
      modifies this`state, this`bufSpos
      ensures Valid()
      ensures OpeningTurn(old(View()), boundary) == if more then Again(View()) else Return(View(), ok)
    {
      var short, taken := TryErase(Opening(boundary));
      if short || !taken { return false, short; }
      state := NewEntry;
      return true, true;
    }

    method ReadBoundary() returns (more: bool, ok: bool)
      requires Valid()
      modifies this`state, this`isValid, this`bufSpos
      ensures Valid()
      ensures BoundaryTurn(old(View())) == if more then Again(View()) else Return(View(), ok)
    {
      hide Expect, At, Find, Window;
      var short, taken := TryErase(CRLF);
      if short { return false, true; }
      if taken {
        state := NewEntry;
        return true, true;
      }
      short, taken := TryErase(FINAL);
      if short || !taken { return false, true; }
      isValid := true;
      state := Done;
      return true, true;
    }

    method Switch(answer: Callbacks) returns (more: bool, ok: bool)
      requires Valid() && bufSpos < bufEpos
      modifies this`state, this`isValid, this`file, this`bufSpos, this`calls
      ensures Valid()
      ensures SwitchTurn(old(View()), boundary, answer) == if more then Again(View()) else Return(View(), ok)
    {
      match state {
        case InitialBoundary =>
          more, ok := ReadOpening();
        case NewEntry =>
          file := NO_FILE;
          state := Headers;
          return true, true;
        case Headers =>
          var pos := BufFind(CRLF);
          if pos > HEADER_MAX_LENGTH { return false, false; }
          more, ok := ReadHeaders(answer);
        case Body =>
          more, ok := ReadBody(answer);
        case Boundary =>
          more, ok := ReadBoundary();
        case Done =>
          isValid := false;
          return false, false;
      }
    }

    /** `parse`: append, then switch until the window is empty or a turn returns. */
    method Parse(data: string, answer: Callbacks) returns (ok: bool)
      requires Valid()
      modifies this, buf
      ensures Valid() && boundary == old(boundary) && (fresh(buf) || buf == old(buf))
      ensures (View(), ok) == Multipart.Parse(old(View()), data, boundary, answer)
    {
      BufAppend(data);
      ghost var start := View();
      while bufEpos - bufSpos > 0
        invariant Valid() && boundary == old(boundary) && (fresh(buf) || buf == old(buf))
        invariant Run(View(), boundary, answer) == Run(start, boundary, answer)
        decreases bufEpos - bufSpos, if state == NewEntry then 1 else 0
      {
        var more, ok' := Switch(answer);
        if !more { return ok'; }
      }
      ok := true;
    }
  }
}
