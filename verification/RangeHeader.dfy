/** Range headers: `make_range_header` and `parse_range_header` (section 2.1 of RFC 7233). */
module RangeHeader {
  import opened Text
  import N = Numerals

  const SSIZE_MAX := 0x7fff_ffff_ffff_ffff

  /** A pair of `ssize_t`; -1 stands for an absent end. */
  datatype Range = Range(first: int, last: int)

  const PREFIX := "bytes="

  // ---- Printing -------------------------------------------------------------------------------

  /** `std::to_string`. */
  function ToString(n: int): string { if n < 0 then "-" + N.Digits(-n, 10) else N.Digits(n, 10) }

  function End(n: int): string { if n == -1 then "" else ToString(n) }

  function Spec(r: Range): string { End(r.first) + "-" + End(r.last) }

  function Tail(rs: seq<Range>): string {
    if rs == [] then "" else ", " + Spec(rs[0]) + Tail(rs[1..])
  }

  function SpecList(rs: seq<Range>): string {
    if rs == [] then "" else Spec(rs[0]) + Tail(rs[1..])
  }

  lemma TailStep(field: string, rs: seq<Range>, i: nat)
    requires i < |rs|
    ensures field + ", " + Spec(rs[i]) + Tail(rs[i + 1..]) == field + Tail(rs[i..])
  {
    assert rs[i..][1..] == rs[i + 1..];
    assert Tail(rs[i..]) == ", " + Spec(rs[i]) + Tail(rs[i + 1..]);
  }

  method MakeRangeHeader(ranges: seq<Range>) returns (field: string)
    ensures field == PREFIX + SpecList(ranges)
  {
    hide ToString, Tail, SpecList;
    field := PREFIX;
    var i := 0;
    while i < |ranges|
      invariant 0 <= i <= |ranges|
      invariant i == 0 ==> field == PREFIX
      invariant i > 0 ==> field + Tail(ranges[i..]) == PREFIX + SpecList(ranges)
    {
      var r := ranges[i];
      ghost var before := field;
      if i != 0 { field := field + ", "; }
      ghost var start := field;
      if r.first != -1 { field := field + ToString(r.first); }
      field := field + "-";
      if r.last != -1 { field := field + ToString(r.last); }
      assert field == start + (End(r.first) + "-" + End(r.last));
      i := i + 1;
      if i > 1 { TailStep(before, ranges, i - 1); } else { TailStart(ranges); }
    }
    NoTail();
    assert ranges[i..] == [];
  }

  lemma TailStart(rs: seq<Range>)
    requires rs != []
    ensures PREFIX + Spec(rs[0]) + Tail(rs[1..]) == PREFIX + SpecList(rs)
  {
  }

  lemma NoTail()
    ensures Tail([]) == "" && SpecList([]) == ""
  {
  }

  // ---- Recognising ----------------------------------------------------------------------------

  /** How many decimal digits `s` starts with. */
  function DigitRun(s: string): (n: nat)
    ensures n <= |s| && N.AllDigits(s[..n], 10)
    ensures n < |s| ==> !N.IsDigit(s[n], 10)
  {
    if s != "" && N.IsDigit(s[0], 10) then
      assert s[..1 + DigitRun(s[1..])] == [s[0]] + s[1..][..DigitRun(s[1..])];
      1 + DigitRun(s[1..])
    else 0
  }

  predicate GroupDigits(g: (string, string)) { N.AllDigits(g.0, 10) && N.AllDigits(g.1, 10) }

  /** The pattern `(\d*)-(\d*)` on the whole of `s`, with its two groups. */
  function Groups(s: string): (g: Option<(string, string)>)
    ensures g.Some? ==> GroupDigits(g.value)
    ensures g.Some? ==> s == g.value.0 + "-" + g.value.1
  {
    var n := DigitRun(s);
    if n < |s| && s[n] == '-' && DigitRun(s[n + 1..]) == |s| - n - 1 then
      assert s == s[..n] + "-" + s[n + 1..] && s[n + 1..][..|s| - n - 1] == s[n + 1..];
      Some((s[..n], s[n + 1..]))
    else None
  }

  /** The pattern `\s*(\d*)-(\d*)`. */
  function SpacedGroups(s: string): (g: Option<(string, string)>)
    ensures g.Some? ==> GroupDigits(g.value)
  {
    Groups(SkipSpaces(s))
  }

  /** The pattern of a whole header value; no part of it matches a comma except the separators. */
  predicate IsRangeHeader(s: string) {
    PREFIX <= s &&
    var fields := Fields(s[|PREFIX|..], ',');
    Groups(fields[0]).Some? && forall i :: 1 <= i < |fields| ==> SpacedGroups(fields[i]).Some?
  }

  // ---- Reading --------------------------------------------------------------------------------

  /** One end: absent, or a number that `stoll` can hold. */
  function ReadEnd(digits: string): Option<int>
    requires N.AllDigits(digits, 10)
  {
    var value: int := if digits == "" then -1 else N.Value(digits, 10);
    if value <= SSIZE_MAX then Some(value)
    else None
  }

  /** One piece; `None` is an overflow or a range that runs backwards. */
  function ReadRange(g: (string, string)): (r: Option<Range>)
    requires GroupDigits(g)
  {
    var first, last := ReadEnd(g.0), ReadEnd(g.1);
    if first.None? || last.None? then None
    else if first.value != -1 && last.value != -1 && first.value > last.value then None
    else Some(Range(first.value, last.value))
  }

  /** The ranges of the pieces, up to the first bad one. Pieces that the pattern refuses are passed over,
      as the callback does; `NothingIsPassedOver` says there are none. */
  function ReadPieces(pieces: seq<string>): (bool, seq<Range>) {
    if pieces == [] then (true, [])
    else if SpacedGroups(pieces[0]).None? then ReadPieces(pieces[1..])
    else
      var r := ReadRange(SpacedGroups(pieces[0]).value);
      if r.None? then (false, [])
      else
        var rest := ReadPieces(pieces[1..]);
        (rest.0, [r.value] + rest.1)
  }

  /** Success, and what is appended to the ranges either way. */
  function Read(s: string): (bool, seq<Range>) {
    if !IsRangeHeader(s) then (false, []) else ReadPieces(Pieces(s[|PREFIX|..], ','))
  }

  /** `parse_range_header`: the split and the callback's loop over its pieces. */
  method ParseRangeHeader(s: string, ranges0: seq<Range>) returns (ok: bool, ranges: seq<Range>)
    ensures ok == Read(s).0 && ranges == ranges0 + Read(s).1
  {
    hide IsRangeHeader, ReadPieces, Pieces;
    ok, ranges := false, ranges0;
    if IsRangeHeader(s) {
      assert PREFIX <= s by { PrefixOf(s); }
      var pieces := Split(s[|PREFIX|..], ',');
      ok, ranges := ReadAll(pieces, ranges0);
    }
  }

  lemma PrefixOf(s: string)
    requires IsRangeHeader(s)
    ensures PREFIX <= s
  {
  }

  method ReadAll(pieces: seq<string>, ranges0: seq<Range>) returns (ok: bool, ranges: seq<Range>)
    ensures ok == ReadPieces(pieces).0 && ranges == ranges0 + ReadPieces(pieces).1
  {
    hide SpacedGroups, ReadRange;
    ok, ranges := true, ranges0;
    var i := 0;
    while i < |pieces|
      invariant 0 <= i <= |pieces|
      invariant ok ==> ReadPieces(pieces).0 == ReadPieces(pieces[i..]).0
      invariant ok ==> ranges0 + ReadPieces(pieces).1 == ranges + ReadPieces(pieces[i..]).1
      invariant !ok ==> !ReadPieces(pieces).0 && ranges0 + ReadPieces(pieces).1 == ranges
    {
      if ok {
        var g := SpacedGroups(pieces[i]);
        assert pieces[i..][0] == pieces[i] && pieces[i..][1..] == pieces[i + 1..];
        if g.Some? {
          var r := ReadRange(g.value);
          if r.None? { ok := false; } else { ranges := ranges + [r.value]; }
        }
      }
      i := i + 1;
    }
  }

  // ---- Nothing is passed over -----------------------------------------------------------------

  lemma {:induction false} SkipSpacesIs(w: string, g: string)
    requires forall i :: 0 <= i < |w| ==> IsSpace(w[i])
    requires g != "" ==> !IsSpace(g[0])
    ensures SkipSpaces(w + g) == g
  {
    if w == "" {
      assert w + g == g;
    } else {
      assert (w + g)[1..] == w[1..] + g;
      SkipSpacesIs(w[1..], g);
    }
  }

  lemma {:induction false} SkipSpacesSplits(s: string) returns (w: string)
    ensures s == w + SkipSpaces(s) && forall i :: 0 <= i < |w| ==> IsSpace(w[i])
  {
    if s != "" && IsSpace(s[0]) {
      var v := SkipSpacesSplits(s[1..]);
      w := [s[0]] + v;
    } else {
      w := "";
    }
  }

  /** Trimming a field does not change what the pattern sees in it. */
  lemma {:induction false} TrimmedField(s: string)
    requires SpacedGroups(s).Some?
    ensures Trimmed(s) != "" && SpacedGroups(Trimmed(s)) == SpacedGroups(s)
    decreases |s|
  {
    var g := SkipSpaces(s);
    assert g[|g| - 1] == '-' || N.IsDigit(g[|g| - 1], 10);
    var w := SkipSpacesSplits(s);
    assert s[|s| - 1] == g[|g| - 1];
    assert !IsBlank(s[|s| - 1]);
    if IsBlank(s[0]) {
      assert SkipSpaces(s) == SkipSpaces(s[1..]);
      TrimmedField(s[1..]);
    }
  }

  lemma {:induction false} KeptFields(fields: seq<string>)
    requires forall i :: 0 <= i < |fields| ==> SpacedGroups(fields[i]).Some?
    ensures |Kept(fields)| == |fields|
    ensures forall i :: 0 <= i < |fields| ==> SpacedGroups(Kept(fields)[i]) == SpacedGroups(fields[i])
  {
    if fields != [] {
      TrimmedField(fields[0]);
      KeptFields(fields[1..]);
    }
  }

  lemma GroupsAreSpacedGroups(s: string)
    requires Groups(s).Some?
    ensures SpacedGroups(s) == Groups(s)
  {
  }

  /** In a header the first pattern accepts, every piece of the split matches the second one, so each
      comma-separated field gives a range or fails the whole. */
  lemma NothingIsPassedOver(s: string)
    requires IsRangeHeader(s)
    ensures var fields, pieces := Fields(s[|PREFIX|..], ','), Pieces(s[|PREFIX|..], ',');
            |pieces| == |fields| && (forall i :: 0 <= i < |pieces| ==> SpacedGroups(pieces[i]).Some?) &&
            (Read(s).0 ==> |Read(s).1| == |fields|)
  {
    var fields := Fields(s[|PREFIX|..], ',');
    GroupsAreSpacedGroups(fields[0]);
    KeptFields(fields);
    ReadCount(Pieces(s[|PREFIX|..], ','));
  }

  lemma {:induction false} ReadCount(pieces: seq<string>)
    requires forall i :: 0 <= i < |pieces| ==> SpacedGroups(pieces[i]).Some?
    ensures ReadPieces(pieces).0 ==> |ReadPieces(pieces).1| == |pieces|
  {
    if pieces != [] { ReadCount(pieces[1..]); }
  }

  // ---- Round trip -----------------------------------------------------------------------------

  /** An end is absent or a non-negative `ssize_t`, and two present ends are in order. */
  predicate WellFormed(r: Range) {
    -1 <= r.first <= SSIZE_MAX && -1 <= r.last <= SSIZE_MAX &&
    (r.first != -1 && r.last != -1 ==> r.first <= r.last)
  }

  lemma EndRead(n: int)
    requires n >= -1
    ensures N.AllDigits(End(n), 10) && ReadEnd(End(n)) == (if n <= SSIZE_MAX then Some(n) else None)
  {
    hide N.Digits, N.Value, N.AllDigits;
    if n >= 0 {
      N.DigitsRead(n, 10);
    } else {
      N.NoDigits(10);
    }
  }

  lemma {:induction false} DigitRunIs(d: string, rest: string)
    requires N.AllDigits(d, 10) && (rest != "" ==> !N.IsDigit(rest[0], 10))
    ensures DigitRun(d + rest) == |d|
  {
    if d == "" {
      assert d + rest == rest;
    } else {
      assert (d + rest)[1..] == d[1..] + rest;
      DigitRunIs(d[1..], rest);
    }
  }

  lemma GroupsIs(a: string, b: string)
    requires N.AllDigits(a, 10) && N.AllDigits(b, 10)
    ensures Groups(a + "-" + b) == Some((a, b))
  {
    var s := a + "-" + b;
    assert s == a + ("-" + b);
    DigitRunIs(a, "-" + b);
    assert s[|a| + 1..] == b && b + "" == b && s[..|a|] == a;
    DigitRunIs(b, "");
  }

  /** A printed range is read as itself when it is well formed, and not otherwise. */
  lemma SpecRead(r: Range)
    requires r.first >= -1 && r.last >= -1
    ensures Groups(Spec(r)) == Some((End(r.first), End(r.last))) && GroupDigits((End(r.first), End(r.last)))
    ensures ReadRange((End(r.first), End(r.last))) == (if WellFormed(r) then Some(r) else None)
  {
    hide Groups, End, ReadEnd, N.AllDigits;
    EndRead(r.first);
    EndRead(r.last);
    GroupsIs(End(r.first), End(r.last));
  }

  /** A negative end other than -1 prints a second minus sign. */
  lemma NegativeSpec(r: Range)
    requires r.first < -1 || r.last < -1
    ensures Groups(Spec(r)).None?
  {
    hide Groups, N.Digits, N.AllDigits, ReadEnd;
    if r.first < -1 {
      N.NoDigits(10);
      MinusInside("", N.Digits(-r.first, 10) + "-" + End(r.last));
      assert Spec(r) == "" + "-" + (N.Digits(-r.first, 10) + "-" + End(r.last));
    } else if r.first == -1 {
      N.NoDigits(10);
      MinusInside("", End(r.last));
    } else {
      EndRead(r.first);
      MinusInside(End(r.first), End(r.last));
    }
  }

  lemma EndBytes(n: int)
    ensures ',' !in End(n) && (End(n) != "" ==> !IsSpace(End(n)[0]))
  {
    hide N.Digits, N.Value;
    if n != -1 {
      var d := N.Digits(if n < 0 then -n else n, 10);
      N.DigitsRead(if n < 0 then -n else n, 10);
      forall i | 0 <= i < |d| ensures d[i] != ',' && !IsSpace(d[i]) { assert N.IsDigit(d[i], 10); }
    }
  }

  lemma SpecBytes(r: Range)
    ensures Spec(r) != "" && !IsSpace(Spec(r)[0]) && ',' !in Spec(r)
  {
    hide End;
    EndBytes(r.first);
    EndBytes(r.last);
  }

  /** A second minus sign is not in the pattern's language. */
  lemma MinusInside(a: string, b: string)
    requires N.AllDigits(a, 10) && '-' in b
    ensures Groups(a + "-" + b).None?
  {
    hide DigitRun, N.AllDigits;
    var s := a + "-" + b;
    assert s == a + ("-" + b);
    DigitRunIs(a, "-" + b);
    assert s[|a| + 1..] == b;
    var i :| 0 <= i < |b| && b[i] == '-';
    DigitRunStops(b, i);
  }

  lemma {:induction false} DigitRunStops(b: string, i: nat)
    requires i < |b| && !N.IsDigit(b[i], 10)
    ensures DigitRun(b) <= i
  {
    hide DigitRun;
    var n := DigitRun(b);
    assert forall k :: 0 <= k < n ==> b[..n][k] == b[k];
  }

  /** The fields after the first of a printed list. */
  function SpacedSpecs(rs: seq<Range>): seq<string> {
    seq(|rs|, i requires 0 <= i < |rs| => " " + Spec(rs[i]))
  }

  lemma {:induction false} FieldsOfTail(f: string, rs: seq<Range>)
    requires ',' !in f
    ensures Fields(f + Tail(rs), ',') == [f] + SpacedSpecs(rs)
    decreases |rs|
  {
    hide Spec, Fields;
    if rs == [] {
      assert f + Tail(rs) == f;
      FieldsOne(f, ',');
    } else {
      SpecBytes(rs[0]);
      var next := " " + Spec(rs[0]);
      assert f + Tail(rs) == f + [','] + (next + Tail(rs[1..]));
      FieldsCons(f, next + Tail(rs[1..]), ',');
      FieldsOfTail(next, rs[1..]);
      assert SpacedSpecs(rs) == [next] + SpacedSpecs(rs[1..]);
    }
  }

  lemma SpacedSpec(r: Range)
    ensures SpacedGroups(Spec(r)) == Groups(Spec(r)) && SpacedGroups(" " + Spec(r)) == Groups(Spec(r))
  {
    hide Spec, Groups;
    SpecBytes(r);
    SkipSpacesIs("", Spec(r));
    assert "" + Spec(r) == Spec(r);
    SkipSpacesIs(" ", Spec(r));
  }

  /** Reading pieces that each denote the range in its place. */
  lemma {:induction false} ReadPiecesIs(pieces: seq<string>, rs: seq<Range>)
    requires |pieces| == |rs|
    requires forall i :: 0 <= i < |rs| ==> rs[i].first >= -1 && rs[i].last >= -1
    requires forall i :: 0 <= i < |rs| ==> SpacedGroups(pieces[i]) == Some((End(rs[i].first), End(rs[i].last)))
    ensures ReadPieces(pieces) == (true, rs) <==> forall i :: 0 <= i < |rs| ==> WellFormed(rs[i])
  {
    hide SpacedGroups, ReadRange, End, WellFormed;
    if rs != [] {
      var r := rs[0];
      SpecRead(r);
      ReadPiecesIs(pieces[1..], rs[1..]);
      assert rs == [r] + rs[1..];
      assert forall i :: 0 <= i < |rs| - 1 ==> rs[1..][i] == rs[i + 1];
    }
  }

  /** The fields of a made header are its printed ranges. */
  lemma MadeFields(rs: seq<Range>)
    requires rs != []
    ensures Fields(SpecList(rs), ',') == [Spec(rs[0])] + SpacedSpecs(rs[1..])
    ensures forall i :: 0 <= i < |rs| ==> SpacedGroups(Fields(SpecList(rs), ',')[i]) == Groups(Spec(rs[i]))
  {
    hide Spec, SpacedGroups, Groups, Fields;
    SpecBytes(rs[0]);
    FieldsOfTail(Spec(rs[0]), rs[1..]);
    var fields := Fields(SpecList(rs), ',');
    forall i | 0 <= i < |rs| ensures SpacedGroups(fields[i]) == Groups(Spec(rs[i])) {
      SpacedSpec(rs[i]);
      assert i > 0 ==> fields[i] == " " + Spec(rs[1..][i - 1]);
    }
  }

  /** A list with an end below -1 is refused by the first pattern. */
  lemma NegativeRefused(rs: seq<Range>, k: nat)
    requires k < |rs| && (rs[k].first < -1 || rs[k].last < -1)
    ensures Read(PREFIX + SpecList(rs)) == (false, [])
  {
    hide Groups, Spec, Fields, SpecList, SpacedGroups, ReadPieces, Pieces;
    var s := PREFIX + SpecList(rs);
    assert s[|PREFIX|..] == SpecList(rs);
    MadeFields(rs);
    NegativeSpec(rs[k]);
  }

  lemma PlainRead(rs: seq<Range>)
    requires rs != [] && forall i :: 0 <= i < |rs| ==> rs[i].first >= -1 && rs[i].last >= -1
    ensures Read(PREFIX + SpecList(rs)) == (true, rs) <==> forall i :: 0 <= i < |rs| ==> WellFormed(rs[i])
  {
    hide Groups, Spec, Fields, SpecList, SpacedGroups, ReadPieces, Kept, End, WellFormed;
    var s := PREFIX + SpecList(rs);
    assert s[|PREFIX|..] == SpecList(rs);
    MadeFields(rs);
    var fields := Fields(SpecList(rs), ',');
    forall i | 0 <= i < |rs| ensures SpacedGroups(fields[i]) == Some((End(rs[i].first), End(rs[i].last))) {
      SpecRead(rs[i]);
    }
    SpecRead(rs[0]);
    assert fields[0] == Spec(rs[0]);
    assert IsRangeHeader(s);
    KeptFields(fields);
    ReadPiecesIs(Kept(fields), rs);
  }

  /** Reading back what was made gives the same ranges exactly for the lists a request can mean: not
      empty, ends absent or non-negative, and in order. */
  lemma RoundTrip(rs: seq<Range>)
    ensures Read(PREFIX + SpecList(rs)) == (true, rs) <==>
            rs != [] && forall i :: 0 <= i < |rs| ==> WellFormed(rs[i])
  {
    hide ReadPieces, SpecList;
    if rs == [] {
      NoTail();
      assert (PREFIX + "")[|PREFIX|..] == "";
    } else if k :| 0 <= k < |rs| && (rs[k].first < -1 || rs[k].last < -1) {
      NegativeRefused(rs, k);
      assert !WellFormed(rs[k]);
    } else {
      PlainRead(rs);
    }
  }

  // ---- What any header means --------------------------------------------------------------------

  /** A range as it may be written: white space, which the first has none of, and two runs of digits. */
  datatype RawSpec = RawSpec(space: string, first: string, last: string)

  predicate RawOk(r: RawSpec) {
    (forall i :: 0 <= i < |r.space| ==> IsSpace(r.space[i])) && N.AllDigits(r.first, 10) && N.AllDigits(r.last, 10)
  }

  predicate AllRaw(rs: seq<RawSpec>) {
    rs != [] && rs[0].space == "" && forall i :: 0 <= i < |rs| ==> RawOk(rs[i])
  }

  function RawText(r: RawSpec): string { r.space + (r.first + "-" + r.last) }

  function RawTexts(rs: seq<RawSpec>): seq<string> { seq(|rs|, i requires 0 <= i < |rs| => RawText(rs[i])) }

  /** The end a run of digits stands for: absent without digits, else its decimal value. */
  function RawEnd(digits: string): int
    requires N.AllDigits(digits, 10)
  {
    if digits == "" then -1 else N.Value(digits, 10)
  }

  /** Both ends are `ssize_t`s, and in order if both are there. */
  predicate RawGood(r: RawSpec)
    requires RawOk(r)
  {
    RawEnd(r.first) <= SSIZE_MAX && RawEnd(r.last) <= SSIZE_MAX &&
    (r.first != "" && r.last != "" ==> RawEnd(r.first) <= RawEnd(r.last))
  }

  /** The ranges up to the first that is not good. */
  function GoodRanges(rs: seq<RawSpec>): seq<Range>
    requires forall i :: 0 <= i < |rs| ==> RawOk(rs[i])
  {
    if rs == [] || !RawGood(rs[0]) then []
    else [Range(RawEnd(rs[0].first), RawEnd(rs[0].last))] + GoodRanges(rs[1..])
  }

  lemma RawGroups(r: RawSpec)
    requires RawOk(r)
    ensures SpacedGroups(RawText(r)) == Some((r.first, r.last)) && ',' !in RawText(r)
    ensures r.space == "" ==> Groups(RawText(r)) == Some((r.first, r.last))
  {
    hide Groups, N.AllDigits;
    var text := r.first + "-" + r.last;
    NoComma(r.first);
    NoComma(r.last);
    assert r.space == "" ==> RawText(r) == text;
    assert text[0] == (if r.first == "" then '-' else r.first[0]);
    SkipSpacesIs(r.space, text);
    GroupsIs(r.first, r.last);
  }

  lemma NoComma(digits: string)
    requires N.AllDigits(digits, 10)
    ensures ',' !in digits && (digits != "" ==> !IsSpace(digits[0]))
  {
    forall i | 0 <= i < |digits| ensures digits[i] != ',' && !IsSpace(digits[i]) { assert N.IsDigit(digits[i], 10); }
  }

  lemma RawRange(r: RawSpec)
    requires RawOk(r)
    ensures ReadRange((r.first, r.last)) ==
            if RawGood(r) then Some(Range(RawEnd(r.first), RawEnd(r.last))) else None
  {
    hide N.Value, N.AllDigits;
  }

  lemma {:induction false} RawPieces(pieces: seq<string>, rs: seq<RawSpec>)
    requires |pieces| == |rs| && forall i :: 0 <= i < |rs| ==> RawOk(rs[i])
    requires forall i :: 0 <= i < |rs| ==> SpacedGroups(pieces[i]) == Some((rs[i].first, rs[i].last))
    ensures ReadPieces(pieces).0 <==> forall i :: 0 <= i < |rs| ==> RawGood(rs[i])
    ensures ReadPieces(pieces).1 == GoodRanges(rs)
    decreases |rs|
  {
    hide SpacedGroups, ReadRange, RawGood, RawOk;
    if rs != [] {
      assert SpacedGroups(pieces[0]) == Some((rs[0].first, rs[0].last));
      RawRange(rs[0]);
      RawPieces(pieces[1..], rs[1..]);
      assert forall i :: 0 < i < |rs| ==> rs[i] == rs[1..][i - 1];
    }
  }

  /** The recogniser accepts `bytes=` and any such list, separated by commas, and nothing else. */
  lemma Recognised(s: string)
    ensures IsRangeHeader(s) <==> exists rs :: AllRaw(rs) && s == PREFIX + JoinFields(RawTexts(rs), ',')
  {
    if IsRangeHeader(s) {
      var rs := RawsOf(s);
    }
    if rs :| AllRaw(rs) && s == PREFIX + JoinFields(RawTexts(rs), ',') { RawRead(rs); }
  }

  lemma RawsOf(s: string) returns (rs: seq<RawSpec>)
    requires IsRangeHeader(s)
    ensures AllRaw(rs) && s == PREFIX + JoinFields(RawTexts(rs), ',')
  {
    hide Groups, SkipSpaces, N.AllDigits;
    var text := s[|PREFIX|..];
    var fields := Fields(text, ',');
    JoinOfFields(text, ',');
    rs := RawsIn(fields, true);
    assert RawTexts(rs) == fields;
  }

  lemma {:induction false} RawsIn(fields: seq<string>, first: bool) returns (rs: seq<RawSpec>)
    requires fields != [] && (if first then Groups(fields[0]).Some? else SpacedGroups(fields[0]).Some?)
    requires forall i :: 1 <= i < |fields| ==> SpacedGroups(fields[i]).Some?
    ensures |rs| == |fields| && forall i :: 0 <= i < |rs| ==> RawOk(rs[i]) && RawText(rs[i]) == fields[i]
    ensures first ==> rs[0].space == ""
    decreases |fields|
  {
    hide Groups, SpacedGroups, RawOk, RawText;
    var r := RawOf(fields[0], first);
    rs := [r];
    if |fields| > 1 {
      var later := RawsIn(fields[1..], false);
      rs := rs + later;
    }
  }

  lemma RawOf(field: string, first: bool) returns (r: RawSpec)
    requires if first then Groups(field).Some? else SpacedGroups(field).Some?
    ensures RawOk(r) && RawText(r) == field && (first ==> r.space == "")
  {
    hide N.AllDigits;
    if first {
      r := RawSpec("", Groups(field).value.0, Groups(field).value.1);
    } else {
      var space := SkipSpacesSplits(field);
      r := RawSpec(space, SpacedGroups(field).value.0, SpacedGroups(field).value.1);
    }
  }

  lemma RawRead(rs: seq<RawSpec>)
    requires AllRaw(rs)
    ensures var s := PREFIX + JoinFields(RawTexts(rs), ',');
            IsRangeHeader(s) && Read(s).1 == GoodRanges(rs) &&
            (Read(s).0 <==> forall i :: 0 <= i < |rs| ==> RawGood(rs[i]))
  {
    hide Groups, SpacedGroups, RawOk, RawGood, RawText, ReadPieces, JoinFields, Kept, Fields;
    var texts := RawTexts(rs);
    var s := PREFIX + JoinFields(texts, ',');
    assert s[|PREFIX|..] == JoinFields(texts, ',');
    forall i | 0 <= i < |rs|
      ensures SpacedGroups(texts[i]) == Some((rs[i].first, rs[i].last)) && ',' !in texts[i]
      ensures i == 0 ==> Groups(texts[i]).Some?
    {
      RawGroups(rs[i]);
    }
    FieldsOfJoin(texts, ',');
    KeptFields(texts);
    RawPieces(Kept(texts), rs);
  }

  /** What `parse_range_header` reads: from such a list the ranges it says, leading zeros and white space
      aside, up to the first whose number is too large or whose ends are in the wrong order, and success
      exactly when there is none; from any other text nothing. */
  lemma AnyHeader(s: string, rs: seq<RawSpec>)
    ensures AllRaw(rs) && s == PREFIX + JoinFields(RawTexts(rs), ',') ==>
              Read(s).1 == GoodRanges(rs) && (Read(s).0 <==> forall i :: 0 <= i < |rs| ==> RawGood(rs[i]))
    ensures (forall rs' :: AllRaw(rs') ==> s != PREFIX + JoinFields(RawTexts(rs'), ',')) ==> Read(s) == (false, [])
  {
    hide IsRangeHeader, AllRaw, RawGood;
    Recognised(s);
    if AllRaw(rs) { RawRead(rs); }
  }
}
