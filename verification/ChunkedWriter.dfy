/** `write_content_chunked` through `nocompressor` (section 7.1 of RFC 9112), and its round trip through
    `read_content_chunked`. */
module ChunkedWriter {
  import opened Bytes
  import opened Text
  import opened Numerals
  import opened LineReader
  import opened ContentReader

  /** Calls a content provider makes on the sink. */
  datatype SinkCall = Write(data: string) | Finish

  const DONE_MARKER := "0" + CRLF + CRLF

  function Chunk(data: string): string { Digits(|data|, 16) + CRLF + data + CRLF }

  /** The bytes a sink call puts on the wire; an empty write puts none. */
  function Wire(call: SinkCall): string {
    match call
    case Write(data) => if data == "" then "" else Chunk(data)
    case Finish => DONE_MARKER
  }

  function Wires(calls: seq<SinkCall>): seq<string> {
    if calls == [] then [] else Wires(calls[..|calls| - 1]) + [Wire(calls[|calls| - 1])]
  }

  function WireAll(calls: seq<SinkCall>): string { Join(Wires(calls)) }

  lemma WireSnoc(calls: seq<SinkCall>, call: SinkCall)
    ensures WireAll(calls + [call]) == WireAll(calls) + Wire(call)
  {
    assert (calls + [call])[..|calls|] == calls;
    JoinSnoc(Wires(calls), Wire(call));
  }

  /** Whether the writing loop goes on after a call. */
  predicate Available(call: SinkCall) { call.Write? && call.data != "" }

  function AvailableAfter(calls: seq<SinkCall>, before: bool): bool {
    if calls == [] then before else Available(calls[|calls| - 1])
  }

  /** A stream that may take fewer bytes than offered, or fail: `limits` says how the next writes go. */
  class OutStream {
    var written: string
    var limits: seq<int>

    constructor (limits: seq<int>)
      ensures written == "" && this.limits == limits
    {
      this.written, this.limits := "", limits;
    }

    method Write(data: string) returns (n: int)
      requires data != ""
      modifies this
      ensures n > 0 ==> n <= |data| && written == old(written) + data[..n]
      ensures n <= 0 ==> n < 0 && written == old(written)
      ensures old(limits) == [] ==> n == |data| && limits == []
    {
      n := |data|;
      if limits != [] {
        if limits[0] <= 0 {
          n := -1;
        } else if limits[0] < n {
          n := limits[0];
        }
        limits := limits[1..];
      }
      if n > 0 {
        assert n == |data| ==> data[..n] == data;
        written := written + data[..n];
      }
    }
  }

  /** `write_data`: keep writing what is left. */
  method WriteData(strm: OutStream, data: string) returns (ok: bool)
    modifies strm
    ensures ok ==> strm.written == old(strm.written) + data
    ensures old(strm.limits) == [] ==> ok && strm.limits == []
  {
    var offset := 0;
    while offset < |data|
      invariant 0 <= offset <= |data| && strm.written == old(strm.written) + data[..offset]
      invariant old(strm.limits) == [] ==> strm.limits == []
    {
      var length := strm.Write(data[offset..]);
      if length < 0 { return false; }
      assert data[..offset + length] == data[..offset] + data[offset..][..length];
      offset := offset + length;
    }
    assert data[..offset] == data;
    ok := true;
  }

  /** The `data_sink` of `write_content_chunked`. */
  class DataSink {
    const strm: OutStream
    var dataAvailable: bool
    var ok: bool
    /** The calls made while `ok`. */
    ghost var calls: seq<SinkCall>

    ghost predicate Valid(before: string)
      reads this, strm
    {
      ok ==> strm.written == before + WireAll(calls) && dataAvailable == AvailableAfter(calls, true)
    }

    constructor (strm: OutStream)
      ensures this.strm == strm && ok && dataAvailable && calls == [] && Valid(strm.written)
    {
      this.strm, dataAvailable, ok, calls := strm, true, true, [];
    }

    method DoWrite(data: string, ghost before: string)
      requires Valid(before) && ok
      modifies this, strm
      ensures Valid(before)
      ensures ok ==> calls == old(calls) + [Write(data)]
      ensures old(strm.limits) == [] ==> ok && strm.limits == []
    {
      calls := calls + [Write(data)];
      WireSnoc(old(calls), Write(data));
      dataAvailable := |data| > 0;
      if data != "" {
        var header := FromIToHex(|data|);
        ok := WriteData(strm, header + CRLF + data + CRLF);
      }
    }

    method DoFinish(ghost before: string)
      requires Valid(before) && ok
      modifies this, strm
      ensures Valid(before)
      ensures ok ==> calls == old(calls) + [Finish]
      ensures old(strm.limits) == [] ==> ok && strm.limits == []
    {
      calls := calls + [Finish];
      WireSnoc(old(calls), Finish);
      dataAvailable := false;
      ok := WriteData(strm, DONE_MARKER);
    }

    method Call(call: SinkCall, ghost before: string)
      requires Valid(before)
      modifies this, strm
      ensures Valid(before)
      ensures ok ==> old(ok) && calls == old(calls) + [call]
      ensures old(ok) && old(strm.limits) == [] ==> ok && strm.limits == []
    {
      if !ok { return; }
      match call {
        case Write(data) => DoWrite(data, before);
        case Finish => DoFinish(before);
      }
    }

    /** One call of the content provider. */
    method Provide(made: seq<SinkCall>, ghost before: string)
      requires Valid(before) && ok
      modifies this, strm
      ensures Valid(before)
      ensures ok ==> calls == old(calls) + made && dataAvailable == AvailableAfter(made, old(dataAvailable))
      ensures old(strm.limits) == [] ==> ok && strm.limits == []
    {
      var j := 0;
      while j < |made|
        invariant 0 <= j <= |made| && Valid(before)
        invariant ok ==> calls == old(calls) + made[..j]
        invariant old(strm.limits) == [] ==> ok && strm.limits == []
      {
        Call(made[j], before);
        assert made[..j + 1] == made[..j] + [made[j]];
        j := j + 1;
      }
      assert made[..j] == made;
      AvailableAppend(old(calls), made, true);
    }
  }

  /** The calls the loop lets the provider make: whole provider calls, until one leaves no data available. */
  function Made(provider: seq<seq<SinkCall>>, available: bool): seq<SinkCall> {
    if provider == [] || !available then []
    else provider[0] + Made(provider[1..], AvailableAfter(provider[0], available))
  }

  /** Whether the loop ends by itself, and does not run out of provider calls. */
  predicate Ends(provider: seq<seq<SinkCall>>, available: bool) {
    !available || (provider != [] && Ends(provider[1..], AvailableAfter(provider[0], available)))
  }

  lemma AvailableAppend(a: seq<SinkCall>, b: seq<SinkCall>, before: bool)
    ensures AvailableAfter(a + b, before) == AvailableAfter(b, AvailableAfter(a, before))
  {
    if b == [] { assert a + b == a; }
  }

  lemma MadeStep(provider: seq<seq<SinkCall>>, i: nat, calls: seq<SinkCall>)
    requires i < |provider|
    ensures var available := AvailableAfter(provider[i], true);
            && calls + Made(provider[i..], true) == calls + provider[i] + Made(provider[i + 1..], available)
            && Ends(provider[i..], true) == Ends(provider[i + 1..], available)
  {
    assert provider[i..][1..] == provider[i + 1..];
  }

  /** `write_content_chunked`; a provider with nothing more to do cancels. */
  method WriteContentChunked(strm: OutStream, provider: seq<seq<SinkCall>>) returns (ok: bool)
    modifies strm
    ensures ok ==> strm.written == old(strm.written) + WireAll(Made(provider, true)) && Ends(provider, true)
    ensures old(strm.limits) == [] && Ends(provider, true) ==> ok
  {
    var sink := new DataSink(strm);
    ghost var before := strm.written;
    var i := 0;
    assert provider[0..] == provider;
    while sink.dataAvailable
      modifies sink, strm
      invariant 0 <= i <= |provider| && sink.Valid(before) && sink.ok
      invariant Made(provider, true) == sink.calls + Made(provider[i..], sink.dataAvailable)
      invariant Ends(provider, true) == Ends(provider[i..], sink.dataAvailable)
      invariant old(strm.limits) == [] ==> strm.limits == []
      decreases |provider| - i
    {
      if i == |provider| { return false; }
      MadeStep(provider, i, sink.calls);
      sink.Provide(provider[i], before);
      if !sink.ok { return false; }
      i := i + 1;
    }
    ok := true;
    assert sink.calls + Made(provider[i..], false) == sink.calls;
  }

  // ---- Round trip ---------------------------------------------------------------------------------

  /** Non-empty writes, then one `done`. */
  predicate Proper(calls: seq<SinkCall>) {
    && calls != [] && calls[|calls| - 1] == Finish
    && forall i :: 0 <= i < |calls| - 1 ==> calls[i].Write? && 0 < |calls[i].data| < ULONG_MAX
  }

  function Contents(calls: seq<SinkCall>): string {
    if calls == [] then "" else (if calls[0].Write? then calls[0].data else "") + Contents(calls[1..])
  }

  lemma {:induction false} WiresCons(calls: seq<SinkCall>)
    requires calls != []
    ensures Wires(calls) == [Wire(calls[0])] + Wires(calls[1..])
  {
    hide Wire;
    var n := |calls| - 1;
    if n == 0 {
      assert calls[..0] == [] && calls[1..] == [];
    } else {
      var init, tail := calls[..n], calls[1..];
      WiresCons(init);
      assert tail[..n - 1] == init[1..] && tail[n - 1] == calls[n];
      assert Wires(tail) == Wires(init[1..]) + [Wire(calls[n])];
    }
  }

  lemma WireCons(calls: seq<SinkCall>, rest: string)
    requires calls != []
    ensures WireAll(calls) + rest == Wire(calls[0]) + (WireAll(calls[1..]) + rest)
  {
    WiresCons(calls);
    JoinCons(Wires(calls));
    assert Wires(calls)[1..] == Wires(calls[1..]);
    Assoc(Wire(calls[0]), WireAll(calls[1..]), rest);
  }

  lemma {:induction false} HexHasNoLineFeed(n: nat)
    ensures '\n' !in Digits(n, 16)
  {
    DigitsRead(n, 16);
  }

  lemma {:induction false} ChunkRead(data: string, more: string, ending: int)
    requires 0 < |data| < ULONG_MAX
    ensures Chunks(Chunk(data) + more, ending) == Delivered(data, Chunks(more, ending))
  {
    hide Chunks, StrToUl16, Digits;
    var header := Digits(|data|, 16);
    HexHasNoLineFeed(|data|);
    SizeLineRead(|data|);
    CrlfIs(more);
    assert header + "\r" + "\n" == header + CRLF;
    RawChunkRead(RawChunk(header + "\r", data), "\r", more, ending);
    Assoc(data, CRLF, more);
    Assoc(header + CRLF, data + CRLF, more);
    Assoc(header + CRLF, data, CRLF);
  }

  lemma {:induction false} DoneRead(rest: string, ending: int)
    ensures Chunks(DONE_MARKER + rest, ending) == Reading(true, "", rest)
  {
    hide Chunks, StrToUl16;
    assert Digits(0, 16) == "0";
    SizeLineRead(0);
    assert "0" + "\r" + "\n" == "0" + CRLF;
    EndRead(LastChunk("0" + "\r", "\r"), rest, ending);
    CrlfIs(rest);
    Assoc("0" + CRLF, CRLF, rest);
  }

  lemma NothingWritten()
    ensures WireAll([]) == ""
  {
  }

  /** Round trip: what proper writes put on the wire is read back as their concatenation, and reading
      stops right after the terminator, whatever follows. */
  lemma {:induction false} RoundTrip(calls: seq<SinkCall>, rest: string, ending: int)
    requires Proper(calls)
    ensures Chunks(WireAll(calls) + rest, ending) == Reading(true, Contents(calls), rest)
    decreases |calls|
  {
    hide Chunks, WireAll, Chunk;
    WireCons(calls, rest);
    NothingWritten();
    var later := calls[1..];
    if later == [] {
      assert WireAll(later) + rest == rest;
      DoneRead(rest, ending);
    } else {
      RoundTrip(later, rest, ending);
      ChunkRead(calls[0].data, WireAll(later) + rest, ending);
    }
  }

  function Flat(provider: seq<seq<SinkCall>>): seq<SinkCall> {
    if provider == [] then [] else provider[0] + Flat(provider[1..])
  }

  lemma ProperTail(a: seq<SinkCall>, b: seq<SinkCall>)
    requires Proper(a + b) && b != []
    ensures Proper(b) && AvailableAfter(a, true)
  {
    assert b[|b| - 1] == (a + b)[|a + b| - 1];
    forall i | 0 <= i < |b| - 1 ensures b[i].Write? && 0 < |b[i].data| < ULONG_MAX {
      assert b[i] == (a + b)[|a| + i];
    }
    if a != [] { assert a[|a| - 1] == (a + b)[|a| - 1]; }
  }

  /** However proper calls are spread over provider calls, the loop makes them all and ends. */
  lemma {:induction false} ProperEnds(provider: seq<seq<SinkCall>>)
    requires Proper(Flat(provider))
    ensures Made(provider, true) == Flat(provider) && Ends(provider, true)
  {
    var a, b := provider[0], Flat(provider[1..]);
    if b == [] {
      assert a + b == a && a[|a| - 1] == Finish;
      assert a + Made(provider[1..], false) == a;
    } else {
      ProperTail(a, b);
      ProperEnds(provider[1..]);
    }
  }

  /** The provider call ends with `done` or with an empty write. */
  predicate Stops(calls: seq<SinkCall>) {
    calls != [] && (calls[|calls| - 1] == Finish || calls[|calls| - 1] == Write(""))
  }

  /** The loop makes whole provider calls up to the first one that stops it, and does not end without one. */
  lemma {:induction false} LoopStops(provider: seq<seq<SinkCall>>, i: nat)
    requires i <= |provider| && forall j :: 0 <= j < i ==> !Stops(provider[j])
    requires i < |provider| ==> Stops(provider[i])
    ensures Ends(provider, true) <==> i < |provider|
    ensures i < |provider| ==> Made(provider, true) == Flat(provider[..i + 1])
  {
    if i == 0 && provider != [] {
      assert provider[..1] == [provider[0]] && provider[..1][1..] == [];
      assert Made(provider[1..], false) == [] && Ends(provider[1..], false);
    } else if provider != [] {
      LoopStops(provider[1..], i - 1);
      assert i < |provider| ==> provider[..i + 1][1..] == provider[1..][..i];
    }
  }

  // ---- Which bodies can be read -------------------------------------------------------------------

  predicate SizesFit(calls: seq<SinkCall>) {
    forall i :: 0 <= i < |calls| ==> calls[i].Write? ==> |calls[i].data| < ULONG_MAX
  }

  /** What is written before the first `done`. */
  function BeforeFinish(calls: seq<SinkCall>): string {
    if calls == [] || calls[0].Finish? then "" else calls[0].data + BeforeFinish(calls[1..])
  }

  function AfterFinish(calls: seq<SinkCall>): seq<SinkCall> {
    if calls == [] then [] else if calls[0].Finish? then calls[1..] else AfterFinish(calls[1..])
  }

  /** Whatever calls are made, empty writes, repeated and missing `done` included: with a `done` the body
      reads as what was written before the first one and reading stops right there; without one reading
      delivers everything written and fails where the bytes end. */
  lemma {:induction false} ReadsAs(calls: seq<SinkCall>, rest: string, ending: int)
    requires SizesFit(calls)
    ensures Finish in calls ==>
              Chunks(WireAll(calls) + rest, ending) ==
              Reading(true, BeforeFinish(calls), WireAll(AfterFinish(calls)) + rest)
    ensures Finish !in calls ==>
              Chunks(WireAll(calls) + rest, ending) == Delivered(BeforeFinish(calls), Chunks(rest, ending))
    decreases |calls|
  {
    hide Chunks, WireAll;
    if calls == [] {
      NothingWritten();
      assert "" + rest == rest;
    } else {
      var later := calls[1..];
      WireCons(calls, rest);
      assert Finish in calls <==> calls[0].Finish? || Finish in later;
      if calls[0].Finish? {
        DoneRead(WireAll(later) + rest, ending);
      } else {
        ReadsAs(later, rest, ending);
        WriteRead(calls[0], WireAll(later) + rest, ending);
        DeliveredTwice(calls[0].data, BeforeFinish(later), Chunks(rest, ending));
      }
    }
  }

  lemma {:induction false} WriteRead(call: SinkCall, more: string, ending: int)
    requires call.Write? && |call.data| < ULONG_MAX
    ensures Chunks(Wire(call) + more, ending) == Delivered(call.data, Chunks(more, ending))
  {
    hide Chunks;
    if call.data == "" {
      assert Wire(call) + more == more;
      assert Delivered("", Chunks(more, ending)) == Chunks(more, ending);
    } else {
      ChunkRead(call.data, more, ending);
    }
  }

  lemma {:induction false} MadeEnds(provider: seq<seq<SinkCall>>, available: bool)
    requires Ends(provider, available)
    ensures !AvailableAfter(Made(provider, available), available)
    decreases |provider|
  {
    if available {
      var after := AvailableAfter(provider[0], true);
      MadeEnds(provider[1..], after);
      AvailableAppend(provider[0], Made(provider[1..], after), true);
    }
  }

  /** The body a provider leaves on the wire can be read exactly when the provider called `done`, and then
      it is what was written before the first `done`. One that ended its loop without `done` ended it with
      an empty write. */
  lemma {:induction false} EmptyWriteTruncates(provider: seq<seq<SinkCall>>, ending: int)
    requires Ends(provider, true) && SizesFit(Made(provider, true))
    ensures var calls := Made(provider, true);
            var body := Chunks(WireAll(calls), ending);
            (body.ok <==> Finish in calls) && body.content == BeforeFinish(calls) &&
            (Finish !in calls ==> calls != [] && calls[|calls| - 1] == Write(""))
  {
    hide WireAll, Made, Ends;
    var calls := Made(provider, true);
    MadeEnds(provider, true);
    ReadsAs(calls, "", ending);
    assert WireAll(calls) + "" == WireAll(calls);
  }
}
