/** Multipart range bodies: `get_range_offset_and_length`, `process_multipart_ranges_data`,
    `make_multipart_ranges_data` and `get_multipart_ranges_data_length`. */
module MultipartRanges {
  import opened Bytes
  import opened RangeHeader
  import N = Numerals

  const SIZE := 0x1_0000_0000_0000_0000

  /** Conversion to `size_t`. */
  function ToSize(n: int): nat { n % SIZE }

  // ---- One range ------------------------------------------------------------------------------

  /** Offset and length with `size_t` arithmetic, for a body of `n` bytes. */
  function OffsetAndLength(r: Range, n: nat): (nat, nat) {
    if r.first == -1 && r.last == -1 then (0, n)
    else
      var first := if r.first == -1 then (if n - r.last > 0 then n - r.last else 0) else r.first;
      var last := if r.first == -1 || r.last == -1 then n - 1 else r.last;
      (ToSize(first), ToSize(ToSize(last - first) + 1))
  }

  /** The half-open interval of bytes a range selects out of `n` (section 2.1 of RFC 7233): a suffix is
      cut to the whole, an open end means up to the last byte; no end at all is taken as everything. */
  function Selected(r: Range, n: nat): (int, int) {
    if r.first == -1 && r.last == -1 then (0, n)
    else if r.first == -1 then (if r.last < n then n - r.last else 0, n)
    else if r.last == -1 then (r.first, n)
    else (r.first, r.last + 1)
  }

  /** The range selects at least one byte and only bytes of the body. */
  predicate InBounds(r: Range, n: nat) {
    WellFormed(r) && Selected(r, n).0 < Selected(r, n).1 <= n
  }

  /** The range starts inside the body. */
  predicate Starts(r: Range, n: nat) { Selected(r, n).0 < n }

  /** The wrapped arithmetic gives the selected interval of every range that starts in the body, past its
      end or not; and an offset past the body for every other. */
  lemma StartsMeaning(r: Range, n: nat)
    requires WellFormed(r) && n <= SSIZE_MAX
    ensures var (offset, length) := OffsetAndLength(r, n);
            (Starts(r, n) <==> offset < n) &&
            (Starts(r, n) ==> (offset, offset + length) == Selected(r, n))
  {
    hide ToSize;
    if r.first != -1 || r.last != -1 {
      var first := if r.first == -1 then (if n - r.last > 0 then n - r.last else 0) else r.first;
      var last := if r.first == -1 || r.last == -1 then n - 1 else r.last;
      Unwrapped(first);
      if last >= first {
        Unwrapped(last - first);
        Unwrapped(last - first + 1);
      }
    }
  }

  /** The wrapped arithmetic gives the selected interval exactly when the range lies in the body. */
  lemma OffsetAndLengthMeaning(r: Range, n: nat)
    requires WellFormed(r) && n <= SSIZE_MAX
    ensures var (offset, length) := OffsetAndLength(r, n);
            (InBounds(r, n) <==> offset < n && offset + length <= n) &&
            (InBounds(r, n) ==> (offset, offset + length) == Selected(r, n))
  {
    hide OffsetAndLength;
    StartsMeaning(r, n);
  }

  lemma Unwrapped(n: int)
    requires 0 <= n < SIZE
    ensures ToSize(n) == n
  {
  }

  method GetRangeOffsetAndLength(r0: Range, contentLength: nat) returns (offset: nat, length: nat)
    ensures (offset, length) == OffsetAndLength(r0, contentLength)
    ensures WellFormed(r0) && contentLength <= SSIZE_MAX ==>
              (InBounds(r0, contentLength) <==> offset < contentLength && offset + length <= contentLength) &&
              (InBounds(r0, contentLength) ==> (offset, offset + length) == Selected(r0, contentLength))
  {
    hide InBounds, Selected, WellFormed;
    if WellFormed(r0) && contentLength <= SSIZE_MAX { OffsetAndLengthMeaning(r0, contentLength); }

    var r := r0;
    if r.first == -1 && r.last == -1 { return 0, contentLength; }
    var slen := contentLength;
    if r.first == -1 {
      r := Range(if slen - r.last > 0 then slen - r.last else 0, slen - 1);
    }
    if r.last == -1 { r := r.(last := slen - 1); }
    return ToSize(r.first), ToSize(ToSize(r.last - r.first) + 1);
  }

  function ContentRangeField(offset: nat, length: nat, contentLength: nat): string {
    "bytes " + N.Digits(offset, 10) + "-" + N.Digits(ToSize(offset + length - 1), 10) + "/" +
    N.Digits(contentLength, 10)
  }

  // ---- The tokens -----------------------------------------------------------------------------

  /** What `process_multipart_ranges_data` hands to its callbacks: text, or an interval of the body. */
  datatype Token = Text(text: string) | Content(offset: nat, length: nat)

  datatype Message = Message(ranges: seq<Range>, body: string, boundary: string, contentType: string)

  function HeadTokens(boundary: string, contentType: string): seq<Token> {
    [Text("--"), Text(boundary), Text(CRLF)] +
    (if contentType == "" then [] else [Text("Content-Type: "), Text(contentType), Text(CRLF)])
  }

  function BodyTokens(offset: nat, length: nat, n: nat): seq<Token> {
    [Text("Content-Range: "), Text(ContentRangeField(offset, length, n)), Text(CRLF), Text(CRLF),
     Content(offset, length), Text(CRLF)]
  }

  function PartTokens(m: Message, r: Range): seq<Token> {
    var (offset, length) := OffsetAndLength(r, |m.body|);
    HeadTokens(m.boundary, m.contentType) + BodyTokens(offset, length, |m.body|)
  }

  function Tokens(m: Message): seq<Token>
    decreases |m.ranges|
  {
    if m.ranges == [] then [Text("--"), Text(m.boundary), Text("--\r\n")]
    else PartTokens(m, m.ranges[0]) + Tokens(m.(ranges := m.ranges[1..]))
  }

  lemma TokensStep(m: Message, i: nat)
    requires i < |m.ranges|
    ensures Tokens(m.(ranges := m.ranges[i..])) ==
            PartTokens(m, m.ranges[i]) + Tokens(m.(ranges := m.ranges[i + 1..]))
  {
    var here := m.(ranges := m.ranges[i..]);
    assert here.ranges[1..] == m.ranges[i + 1..];
    assert PartTokens(here, m.ranges[i]) == PartTokens(m, m.ranges[i]);
  }

  lemma {:induction false} TokensEnd(m: Message)
    requires m.ranges == []
    ensures Tokens(m) == [Text("--"), Text(m.boundary), Text("--\r\n")]
  {
  }

  method ProcessMultipartRangesData(m: Message) returns (tokens: seq<Token>)
    ensures tokens == Tokens(m)
  {
    hide PartTokens, Tokens, OffsetAndLength;
    tokens := [];
    var i := 0;
    assert m.ranges[0..] == m.ranges;
    while i < |m.ranges|
      invariant 0 <= i <= |m.ranges|
      invariant tokens + Tokens(m.(ranges := m.ranges[i..])) == Tokens(m)
    {
      var part := OnePart(m, m.ranges[i]);
      TokensStep(m, i);
      tokens := tokens + part;
      i := i + 1;
    }
    TokensEnd(m.(ranges := m.ranges[i..]));
    tokens := tokens + [Text("--"), Text(m.boundary), Text("--\r\n")];
  }

  method OnePart(m: Message, r: Range) returns (tokens: seq<Token>)
    ensures tokens == PartTokens(m, r)
  {
    hide OffsetAndLength;
    tokens := [Text("--"), Text(m.boundary), Text("\r\n")];
    if m.contentType != "" {
      tokens := tokens + [Text("Content-Type: "), Text(m.contentType), Text("\r\n")];
    }
    var offset, length := GetRangeOffsetAndLength(r, |m.body|);
    var field := ContentRangeField(offset, length, |m.body|);
    tokens := tokens + [Text("Content-Range: "), Text(field), Text("\r\n"), Text("\r\n"),
                        Content(offset, length), Text("\r\n")];
  }

  // ---- The two consumers ----------------------------------------------------------------------

  function Concat(pieces: seq<string>): string {
    if pieces == [] then "" else pieces[0] + Concat(pieces[1..])
  }

  function Least(a: nat, b: nat): nat { if a < b then a else b }

  /** What a token adds to the data: its text, or `substr(offset, length)` of the body. */
  function Shown(token: Token, body: string): string {
    match token
    case Text(text) => text
    case Content(offset, length) => if offset <= |body| then body[offset..Least(offset + length, |body|)] else ""
  }

  predicate Refused(token: Token, n: nat) { token.Content? && token.offset >= n }

  /** The pieces the first consumer appends, and whether it gets to the end. */
  function Appended(tokens: seq<Token>, body: string): (bool, seq<string>) {
    if tokens == [] then (true, [])
    else if Refused(tokens[0], |body|) then (false, [])
    else
      var rest := Appended(tokens[1..], body);
      (rest.0, [Shown(tokens[0], body)] + rest.1)
  }

  function SizeOf(token: Token): nat { if token.Text? then |token.text| else token.length }

  /** What the second consumer adds up, before `size_t` wraps it. */
  function Counted(tokens: seq<Token>): nat {
    if tokens == [] then 0 else SizeOf(tokens[0]) + Counted(tokens[1..])
  }

  lemma {:induction false} ConcatStep(data: string, pieces: seq<string>)
    requires pieces != []
    ensures data + pieces[0] + Concat(pieces[1..]) == data + Concat(pieces)
  {
  }

  method MakeMultipartRangesData(m: Message, data0: string) returns (ok: bool, data: string)
    ensures ok == Appended(Tokens(m), m.body).0
    ensures data == data0 + Concat(Appended(Tokens(m), m.body).1)
  {
    hide Tokens, Concat, Shown;
    var tokens := ProcessMultipartRangesData(m);
    data := data0;
    var i := 0;
    assert tokens[0..] == tokens;
    while i < |tokens|
      invariant 0 <= i <= |tokens|
      invariant Appended(tokens, m.body).0 == Appended(tokens[i..], m.body).0
      invariant data + Concat(Appended(tokens[i..], m.body).1) == data0 + Concat(Appended(tokens, m.body).1)
    {
      assert tokens[i..][0] == tokens[i] && tokens[i..][1..] == tokens[i + 1..];
      if tokens[i].Content? && tokens[i].offset >= |m.body| {
        NothingConcatenated();
        return false, data;
      }
      ConcatStep(data, Appended(tokens[i..], m.body).1);
      data := data + Shown(tokens[i], m.body);
      i := i + 1;
    }
    NothingConcatenated();
    ok := true;
  }

  lemma NothingConcatenated()
    ensures Concat([]) == ""
  {
  }

  method GetMultipartRangesDataLength(m: Message) returns (dataLength: nat)
    ensures dataLength == ToSize(Counted(Tokens(m)))
  {
    hide Tokens;
    var tokens := ProcessMultipartRangesData(m);
    dataLength := 0;
    var i := 0;
    ghost var sum := 0;
    assert tokens[0..] == tokens;
    while i < |tokens|
      invariant 0 <= i <= |tokens|
      invariant dataLength == ToSize(sum) && sum + Counted(tokens[i..]) == Counted(tokens)
    {
      assert tokens[i..][0] == tokens[i] && tokens[i..][1..] == tokens[i + 1..];
      dataLength := ToSize(dataLength + SizeOf(tokens[i]));
      sum := sum + SizeOf(tokens[i]);
      i := i + 1;
    }
  }

  // ---- They agree -----------------------------------------------------------------------------

  function Past(token: Token, n: nat): nat {
    if token.Content? && token.offset + token.length > n then token.offset + token.length - n else 0
  }

  /** How far the intervals reach past the end of a body of `n` bytes. */
  function Overshoot(tokens: seq<Token>, n: nat): nat {
    if tokens == [] then 0 else Past(tokens[0], n) + Overshoot(tokens[1..], n)
  }

  /** A message that is made completely differs from its counted length by the overshoot alone. */
  lemma {:induction false} CountedIsAppended(tokens: seq<Token>, body: string)
    ensures Appended(tokens, body).0 ==>
              Counted(tokens) == |Concat(Appended(tokens, body).1)| + Overshoot(tokens, |body|)
  {
    if tokens != [] {
      CountedIsAppended(tokens[1..], body);
      if !Refused(tokens[0], |body|) {
        assert SizeOf(tokens[0]) == |Shown(tokens[0], body)| + Past(tokens[0], |body|);
      }
    }
  }

  lemma {:induction false} AppendedSplits(a: seq<Token>, b: seq<Token>, body: string)
    ensures Appended(a + b, body).0 == (Appended(a, body).0 && Appended(b, body).0)
    ensures Appended(a, body).0 ==> Appended(a + b, body).1 == Appended(a, body).1 + Appended(b, body).1
    ensures Overshoot(a + b, |body|) == Overshoot(a, |body|) + Overshoot(b, |body|)
  {
    hide Shown, Past, Refused;
    if a == [] {
      assert a + b == b;
    } else {
      assert (a + b)[1..] == a[1..] + b && (a + b)[0] == a[0];
      AppendedSplits(a[1..], b, body);
    }
  }

  function AllShown(tokens: seq<Token>, body: string): seq<string> {
    seq(|tokens|, i requires 0 <= i < |tokens| => Shown(tokens[i], body))
  }

  lemma {:induction false} AppendedIs(tokens: seq<Token>, body: string)
    ensures Appended(tokens, body).0 <==> forall i :: 0 <= i < |tokens| ==> !Refused(tokens[i], |body|)
    ensures Appended(tokens, body).0 ==> Appended(tokens, body).1 == AllShown(tokens, body)
    ensures Overshoot(tokens, |body|) == 0 <==> forall i :: 0 <= i < |tokens| ==> Past(tokens[i], |body|) == 0
  {
    hide Shown, Past, Refused;
    if tokens != [] {
      AppendedIs(tokens[1..], body);
      assert forall i :: 0 < i < |tokens| ==> tokens[i] == tokens[1..][i - 1];
    }
  }

  /** One part as it stands in the message: its headers, and the bytes the range selects. */
  function PartPieces(m: Message, r: Range): seq<string>
    requires InBounds(r, |m.body|)
  {
    var (lo, hi) := Selected(r, |m.body|);
    ["--", m.boundary, CRLF] +
    (if m.contentType == "" then [] else ["Content-Type: ", m.contentType, CRLF]) +
    ["Content-Range: ",
     "bytes " + N.Digits(lo, 10) + "-" + N.Digits(hi - 1, 10) + "/" + N.Digits(|m.body|, 10),
     CRLF, CRLF, m.body[lo..hi], CRLF]
  }

  predicate AllInBounds(m: Message) { forall i :: 0 <= i < |m.ranges| ==> InBounds(m.ranges[i], |m.body|) }

  function MessagePieces(m: Message): seq<string>
    requires AllInBounds(m)
    decreases |m.ranges|
  {
    if m.ranges == [] then ["--", m.boundary, "--\r\n"]
    else PartPieces(m, m.ranges[0]) + MessagePieces(m.(ranges := m.ranges[1..]))
  }

  /** One part is made in full, and no more than the body holds, exactly when its range is in bounds. */
  lemma PartAppended(m: Message, r: Range)
    requires WellFormed(r) && |m.body| <= SSIZE_MAX
    ensures var tokens := PartTokens(m, r);
            Appended(tokens, m.body).0 && Overshoot(tokens, |m.body|) == 0 <==> InBounds(r, |m.body|)
    ensures InBounds(r, |m.body|) ==> Appended(PartTokens(m, r), m.body).1 == PartPieces(m, r)
  {
    hide Appended, Overshoot, OffsetAndLength, WellFormed, N.Digits;
    var tokens, n := PartTokens(m, r), |m.body|;
    var (offset, length) := OffsetAndLength(r, n);
    OffsetAndLengthMeaning(r, n);
    AppendedIs(tokens, m.body);
    var k := |tokens| - 2;
    assert tokens[k] == Content(offset, length);
    assert forall i :: 0 <= i < |tokens| && i != k ==> tokens[i].Text?;
    if InBounds(r, n) { PartShown(m, r, offset, length); }
  }

  lemma PartShown(m: Message, r: Range, offset: nat, length: nat)
    requires InBounds(r, |m.body|) && |m.body| <= SSIZE_MAX
    requires OffsetAndLength(r, |m.body|) == (offset, length)
    requires Selected(r, |m.body|) == (offset, offset + length)
    ensures AllShown(PartTokens(m, r), m.body) == PartPieces(m, r)
  {
    hide OffsetAndLength, WellFormed, N.Digits, Selected;
    assert ToSize(offset + length - 1) == offset + length - 1;
  }

  /** The message is made in full with no interval reaching past the body exactly when every range lies
      in the body; it then consists of the parts' headers and the selected slices. */
  lemma {:induction false} MadeMessage(m: Message)
    requires |m.body| <= SSIZE_MAX && forall i :: 0 <= i < |m.ranges| ==> WellFormed(m.ranges[i])
    ensures Appended(Tokens(m), m.body).0 && Overshoot(Tokens(m), |m.body|) == 0 <==> AllInBounds(m)
    ensures AllInBounds(m) ==> Appended(Tokens(m), m.body).1 == MessagePieces(m)
    decreases |m.ranges|
  {
    hide WellFormed, InBounds, PartTokens, Appended, Overshoot, PartPieces, Shown;
    if m.ranges == [] {
      AppendedIs(Tokens(m), m.body);
      CloseShown(m);
    } else {
      var rest := m.(ranges := m.ranges[1..]);
      PartAppended(m, m.ranges[0]);
      MadeMessage(rest);
      AppendedSplits(PartTokens(m, m.ranges[0]), Tokens(rest), m.body);
      assert forall i :: 0 <= i < |rest.ranges| ==> rest.ranges[i] == m.ranges[i + 1];
      assert AllInBounds(m) <==> InBounds(m.ranges[0], |m.body|) && AllInBounds(rest);
    }
  }

  lemma {:induction false} CloseShown(m: Message)
    requires m.ranges == []
    ensures AllShown(Tokens(m), m.body) == MessagePieces(m)
    ensures forall i :: 0 <= i < |Tokens(m)| ==>
              !Refused(Tokens(m)[i], |m.body|) && Past(Tokens(m)[i], |m.body|) == 0
  {
  }

  /** How far past a body of `n` bytes the range reaches. */
  function Excess(r: Range, n: nat): nat { if Selected(r, n).1 > n then Selected(r, n).1 - n else 0 }

  function TotalExcess(rs: seq<Range>, n: nat): nat {
    if rs == [] then 0 else Excess(rs[0], n) + TotalExcess(rs[1..], n)
  }

  lemma {:induction false} OnlyContent(tokens: seq<Token>, k: nat, n: nat)
    requires k < |tokens| && forall i :: 0 <= i < |tokens| && i != k ==> tokens[i].Text?
    ensures Overshoot(tokens, n) == Past(tokens[k], n)
    decreases |tokens|
  {
    if k > 0 {
      OnlyContent(tokens[1..], k - 1, n);
    } else {
      NoContent(tokens[1..], n);
    }
  }

  lemma {:induction false} NoContent(tokens: seq<Token>, n: nat)
    requires forall i :: 0 <= i < |tokens| ==> tokens[i].Text?
    ensures Overshoot(tokens, n) == 0
  {
    if tokens != [] { NoContent(tokens[1..], n); }
  }

  lemma PartExcess(m: Message, r: Range)
    requires WellFormed(r) && |m.body| <= SSIZE_MAX
    ensures Appended(PartTokens(m, r), m.body).0 == Starts(r, |m.body|)
    ensures Starts(r, |m.body|) ==> Overshoot(PartTokens(m, r), |m.body|) == Excess(r, |m.body|)
  {
    hide Appended, Overshoot, OffsetAndLength, WellFormed, N.Digits, Selected;
    var tokens, n := PartTokens(m, r), |m.body|;
    var (offset, length) := OffsetAndLength(r, n);
    StartsMeaning(r, n);
    AppendedIs(tokens, m.body);
    var k := |tokens| - 2;
    assert tokens[k] == Content(offset, length);
    assert forall i :: 0 <= i < |tokens| && i != k ==> tokens[i].Text?;
    OnlyContent(tokens, k, n);
  }

  /** A message is made in full exactly when every range starts in the body, and what its intervals
      reach past the body is the ranges' excess. */
  lemma {:induction false} MessageExcess(m: Message)
    requires |m.body| <= SSIZE_MAX && forall i :: 0 <= i < |m.ranges| ==> WellFormed(m.ranges[i])
    ensures var starts := forall i :: 0 <= i < |m.ranges| ==> Starts(m.ranges[i], |m.body|);
            Appended(Tokens(m), m.body).0 == starts &&
            (starts ==> Overshoot(Tokens(m), |m.body|) == TotalExcess(m.ranges, |m.body|))
    decreases |m.ranges|
  {
    hide WellFormed, Starts, PartTokens, Appended, Overshoot, Excess;
    if m.ranges == [] {
      AppendedIs(Tokens(m), m.body);
      CloseShown(m);
    } else {
      var rest := m.(ranges := m.ranges[1..]);
      PartExcess(m, m.ranges[0]);
      MessageExcess(rest);
      AppendedSplits(PartTokens(m, m.ranges[0]), Tokens(rest), m.body);
      assert forall i :: 0 <= i < |rest.ranges| ==> rest.ranges[i] == m.ranges[i + 1];
    }
  }

  /** The message is made in full and its declared length is its size exactly when every range starts in
      the body and the excess of all ranges together is nothing modulo 2^64. */
  lemma {:induction false} DeclaredLength(m: Message)
    requires |m.body| <= SSIZE_MAX && forall i :: 0 <= i < |m.ranges| ==> WellFormed(m.ranges[i])
    ensures var (ok, pieces) := Appended(Tokens(m), m.body);
            ok && ToSize(Counted(Tokens(m))) == ToSize(|Concat(pieces)|) <==>
            (forall i :: 0 <= i < |m.ranges| ==> Starts(m.ranges[i], |m.body|)) &&
            ToSize(TotalExcess(m.ranges, |m.body|)) == 0
  {
    hide Tokens, Appended, Counted, Concat, Overshoot, TotalExcess, ToSize, Starts;
    MessageExcess(m);
    CountedIsAppended(Tokens(m), m.body);
    SameSize(|Concat(Appended(Tokens(m), m.body).1)|, TotalExcess(m.ranges, |m.body|));
  }

  lemma SameSize(a: nat, b: nat)
    ensures ToSize(a + b) == ToSize(a) <==> ToSize(b) == 0
  {
    DivModSize(a);
    DivModSize(b);
    DivModSize(a + b);
  }

  lemma DivModSize(a: nat)
    ensures a == a / SIZE * SIZE + ToSize(a)
  {
  }

  /** For ranges inside the body the declared length is right; and while the sum does not wrap, which it
      does not for fewer than two ranges, it is right for those only. */
  lemma {:induction false} DeclaredLengthInBounds(m: Message)
    requires |m.body| <= SSIZE_MAX && forall i :: 0 <= i < |m.ranges| ==> WellFormed(m.ranges[i])
    ensures var (ok, pieces) := Appended(Tokens(m), m.body);
            var right := ok && ToSize(Counted(Tokens(m))) == ToSize(|Concat(pieces)|);
            (AllInBounds(m) ==> right) &&
            (TotalExcess(m.ranges, |m.body|) < SIZE && right ==> AllInBounds(m))
    ensures |m.ranges| < 2 ==> TotalExcess(m.ranges, |m.body|) < SIZE
  {
    hide Tokens, Appended, Counted, Concat, Overshoot;
    DeclaredLength(m);
    MessageExcess(m);
    NoExcess(m.ranges, |m.body|);
  }

  lemma {:induction false} NoExcess(rs: seq<Range>, n: nat)
    requires forall i :: 0 <= i < |rs| ==> WellFormed(rs[i])
    ensures TotalExcess(rs, n) == 0 <==> forall i :: 0 <= i < |rs| ==> Selected(rs[i], n).1 <= n
    ensures |rs| < 2 ==> TotalExcess(rs, n) < SIZE
  {
    if rs != [] { NoExcess(rs[1..], n); }
  }

  /** The wrap is real: three ranges that start in the body and reach past it by 2^64 bytes in all. */
  lemma WrappedLength(body: string, boundary: string, contentType: string)
    requires 0 < |body| && 3 * |body| <= SSIZE_MAX
    ensures var far := Range(0, SSIZE_MAX);
            var m := Message([far, far, Range(0, 3 * |body| - 1)], body, boundary, contentType);
            !AllInBounds(m) && Appended(Tokens(m), body).0 &&
            ToSize(Counted(Tokens(m))) == ToSize(|Concat(Appended(Tokens(m), body).1)|)
  {
    hide Tokens, Appended, Counted, Concat, ToSize;
    var far, near, n := Range(0, SSIZE_MAX), Range(0, 3 * |body| - 1), |body|;
    var m := Message([far, far, near], body, boundary, contentType);
    assert [near][1..] == [];
    assert TotalExcess([near], n) == 2 * n;
    assert [far, near][1..] == [near];
    assert TotalExcess([far, near], n) == SSIZE_MAX + 1 + n;
    assert m.ranges[1..] == [far, near];
    assert TotalExcess(m.ranges, n) == SIZE;
    Wrapped();
    assert !InBounds(m.ranges[0], n);
    DeclaredLength(m);
  }

  lemma Wrapped()
    ensures ToSize(SIZE) == 0
  {
  }
}
