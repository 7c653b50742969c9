/** Blank trimming and delimiter splitting (`trim`, `trim_copy`, `split` of httplib.cpp), and the ASCII
    case folding of the C locale. */
module Text {

  datatype Option<+T> = None | Some(value: T)

  predicate IsBlank(c: char) { c == ' ' || c == '\t' }

  /** White space: `isspace`, and the class `\s` of the patterns. */
  predicate IsSpace(c: char) {
    c == ' ' || c == '\t' || c == '\n' || c == '\r' || c == '\U{0B}' || c == '\U{0C}'
  }

  /** `s` after its leading white space. */
  function SkipSpaces(s: string): (r: string)
    ensures r != "" ==> !IsSpace(r[0])
  {
    if s != "" && IsSpace(s[0]) then SkipSpaces(s[1..]) else s
  }

  function ToLower(c: char): char {
    if 'A' <= c <= 'Z' then (c as int + 32) as char else c
  }

  /** The same letter in either case, or the same byte. */
  predicate SameLetter(a: char, b: char) {
    a == b || ('A' <= a <= 'Z' && b as int == a as int + 32) || ('A' <= b <= 'Z' && a as int == b as int + 32)
  }

  lemma LowerIsSameLetter(a: char, b: char)
    ensures ToLower(a) == ToLower(b) <==> SameLetter(a, b)
  {
  }

  /** `text` begins with `prefix`, letters compared without case. */
  predicate StartsWithIgnoreCase(text: string, prefix: string) {
    |prefix| <= |text| && forall i :: 0 <= i < |prefix| ==> ToLower(text[i]) == ToLower(prefix[i])
  }

  lemma StartsWithItself(prefix: string, rest: string)
    ensures StartsWithIgnoreCase(prefix + rest, prefix) && (prefix + rest)[|prefix|..] == rest
  {
  }

  /** `text` without the blanks at its two ends. */
  function Trimmed(text: string): (r: string)
    ensures r != "" ==> !IsBlank(r[0]) && !IsBlank(r[|r| - 1])
    ensures |r| <= |text|
  {
    if text == "" then ""
    else if IsBlank(text[0]) then Trimmed(text[1..])
    else if IsBlank(text[|text| - 1]) then Trimmed(text[..|text| - 1])
    else text
  }

  ghost predicate NoOuterBlanks(s: string) {
    s != "" ==> !IsBlank(s[0]) && !IsBlank(s[|s| - 1])
  }

  lemma {:induction false} TrimmedKeeps(s: string)
    requires NoOuterBlanks(s)
    ensures Trimmed(s) == s
  {
  }

  ghost predicate AllBlank(s: string) { forall i :: 0 <= i < |s| ==> IsBlank(s[i]) }

  lemma {:induction false} TrimmedBlank(s: string)
    ensures AllBlank(s) <==> Trimmed(s) == ""
    decreases |s|
  {
    if s != "" {
      if IsBlank(s[0]) {
        TrimmedBlank(s[1..]);
        assert s == [s[0]] + s[1..];
        assert AllBlank(s) <==> AllBlank(s[1..]);
      } else if IsBlank(s[|s| - 1]) {
        TrimmedBlank(s[..|s| - 1]);
        assert s[..|s| - 1][0] == s[0];
      }
    }
  }

  lemma SliceOfSlice(s: string, beg: nat, end: nat, l: nat, r: nat)
    requires beg <= l <= r <= end <= |s|
    ensures s[beg..end][l - beg..r - beg] == s[l..r]
  {
    var f := s[beg..end];
    forall k | 0 <= k < r - l ensures f[l - beg..r - beg][k] == s[l..r][k] {
      assert f[l - beg..r - beg][k] == f[l - beg + k];
    }
  }

  lemma {:induction false} LeftTrimmed(s: string)
    requires s != "" && IsBlank(s[0])
    ensures Trimmed(s) == Trimmed(s[1..])
  {
  }

  lemma {:induction false} RightTrimmed(s: string)
    requires s != "" && !IsBlank(s[0]) && IsBlank(s[|s| - 1])
    ensures Trimmed(s) == Trimmed(s[..|s| - 1])
  {
  }

  lemma {:induction false} NotTrimmed(s: string)
    requires s != "" && !IsBlank(s[0]) && !IsBlank(s[|s| - 1])
    ensures Trimmed(s) == s
  {
  }

  /** Trimming is cutting between the first and the last byte that is not blank. */
  lemma {:induction false} TrimmedIs(s: string, l: nat, r: nat)
    requires l < r <= |s|
    requires forall i :: 0 <= i < l ==> IsBlank(s[i])
    requires forall i :: r <= i < |s| ==> IsBlank(s[i])
    requires !IsBlank(s[l]) && !IsBlank(s[r - 1])
    ensures Trimmed(s) == s[l..r]
    decreases |s|
  {
    hide Trimmed, IsBlank;
    if l > 0 {
      var t := s[1..];
      forall i | 0 <= i < |t| ensures t[i] == s[i + 1] {}
      LeftTrimmed(s);
      TrimmedIs(t, l - 1, r - 1);
      SliceOfSlice(s, 1, |s|, l, r);
    } else if r < |s| {
      var t := s[..|s| - 1];
      forall i | 0 <= i < |t| ensures t[i] == s[i] {}
      RightTrimmed(s);
      TrimmedIs(t, l, r);
      SliceOfSlice(s, 0, |s| - 1, l, r);
      assert s[0..|s| - 1] == t;
    } else {
      NotTrimmed(s);
      assert s[l..r] == s;
    }
  }

  /** The index loops of `trim` over the whole text, started at `left0` and `right0`. */
  method Trim(text: string, left0: nat, right0: nat) returns (left: nat, right: nat)
    requires left0 <= |text| && right0 <= |text|
    ensures left0 <= left <= |text| && right <= right0
    ensures forall i :: left0 <= i < left ==> IsBlank(text[i])
    ensures left < |text| ==> !IsBlank(text[left])
    ensures forall i :: right <= i < right0 ==> IsBlank(text[i])
    ensures right > 0 ==> !IsBlank(text[right - 1])
  {
    left, right := left0, right0;
    while left < |text| && IsBlank(text[left])
      invariant left0 <= left <= |text|
      invariant forall i :: left0 <= i < left ==> IsBlank(text[i])
    {
      left := left + 1;
    }
    while right > 0 && IsBlank(text[right - 1])
      invariant right <= right0
      invariant forall i :: right <= i < right0 ==> IsBlank(text[i])
    {
      right := right - 1;
    }
  }

  /** On an all-blank text the source's indices cross and `substr` is empty. */
  method TrimCopy(text: string) returns (r: string)
    ensures r == Trimmed(text)
  {
    var left, right := Trim(text, 0, |text|);
    TrimmedBlank(text);
    if left < right {
      TrimmedIs(text, left, right);
      r := text[left..right];
    } else {
      r := "";
    }
  }

  /** The fields of `s` between the delimiters, in order; always at least one. */
  function Fields(s: string, d: char): (r: seq<string>)
    ensures r != [] && forall f :: f in r ==> d !in f
  {
    if s == "" then [""]
    else
      var rest := Fields(s[1..], d);
      if s[0] == d then [""] + rest else [[s[0]] + rest[0]] + rest[1..]
  }

  /** Trimmed fields, empty ones dropped: the pieces `split` hands to its callback. */
  function Kept(fields: seq<string>): seq<string> {
    if fields == [] then []
    else (if Trimmed(fields[0]) == "" then [] else [Trimmed(fields[0])]) + Kept(fields[1..])
  }

  function Pieces(s: string, d: char): seq<string> { Kept(Fields(s, d)) }

  lemma {:induction false} FieldsCons(f: string, s: string, d: char)
    requires d !in f
    ensures Fields(f + [d] + s, d) == [f] + Fields(s, d)
  {
    if f == "" {
      assert f + [d] + s == [d] + s;
    } else {
      FieldsCons(f[1..], s, d);
      assert (f + [d] + s)[1..] == f[1..] + [d] + s;
      assert [f[0]] + f[1..] == f;
    }
  }

  lemma {:induction false} FieldsOne(f: string, d: char)
    requires d !in f
    ensures Fields(f, d) == [f]
  {
    if f != "" {
      FieldsOne(f[1..], d);
      assert [f[0]] + f[1..] == f;
    }
  }

  /** Fields with the delimiter between them. */
  function JoinFields(fields: seq<string>, d: char): string
    requires fields != []
  {
    if |fields| == 1 then fields[0] else fields[0] + [d] + JoinFields(fields[1..], d)
  }

  /** Splitting undoes joining. */
  lemma {:induction false} FieldsOfJoin(fields: seq<string>, d: char)
    requires fields != [] && forall i :: 0 <= i < |fields| ==> d !in fields[i]
    ensures Fields(JoinFields(fields, d), d) == fields
  {
    if |fields| == 1 {
      FieldsOne(fields[0], d);
    } else {
      FieldsOfJoin(fields[1..], d);
      FieldsCons(fields[0], JoinFields(fields[1..], d), d);
      assert fields == [fields[0]] + fields[1..];
    }
  }

  /** Joining undoes splitting. */
  lemma {:induction false} JoinOfFields(s: string, d: char)
    ensures JoinFields(Fields(s, d), d) == s
  {
    if s != "" {
      var rest := Fields(s[1..], d);
      JoinOfFields(s[1..], d);
      assert s == [s[0]] + s[1..];
      if s[0] == d {
        assert ([""] + rest)[1..] == rest;
      } else {
        var fields := [[s[0]] + rest[0]] + rest[1..];
        assert fields[1..] == rest[1..];
        assert rest == [rest[0]] + rest[1..];
      }
    }
  }

  /** The first and the last piece are the first and the last field that is not blank, trimmed. */
  lemma {:induction false} KeptEnds(fields: seq<string>, i: nat, j: nat)
    requires i <= j < |fields| && !AllBlank(fields[i]) && !AllBlank(fields[j])
    requires forall k :: 0 <= k < |fields| && (k < i || j < k) ==> AllBlank(fields[k])
    ensures var pieces := Kept(fields);
            pieces != [] && pieces[0] == Trimmed(fields[i]) && pieces[|pieces| - 1] == Trimmed(fields[j]) &&
            (|pieces| == 1 <==> i == j)
    decreases |fields|
  {
    hide AllBlank, Trimmed;
    TrimmedBlank(fields[0]);
    var later := fields[1..];
    assert forall k :: 0 <= k < |later| ==> later[k] == fields[k + 1];
    if i > 0 {
      KeptEnds(later, i - 1, j - 1);
    } else if j > 0 {
      var k := NotBlank(later, j - 1);
      KeptEnds(later, k, j - 1);
    } else {
      NoneKept(later);
    }
  }

  /** The first field that is not blank. */
  lemma {:induction false} NotBlank(fields: seq<string>, j: nat) returns (i: nat)
    requires j < |fields| && !AllBlank(fields[j])
    ensures i <= j && !AllBlank(fields[i]) && forall k :: 0 <= k < i ==> AllBlank(fields[k])
  {
    if AllBlank(fields[0]) {
      i := NotBlank(fields[1..], j - 1);
      i := i + 1;
      assert forall k :: 0 < k < i ==> fields[k] == fields[1..][k - 1];
    } else {
      i := 0;
    }
  }

  lemma {:induction false} NoneKept(fields: seq<string>)
    requires forall k :: 0 <= k < |fields| ==> AllBlank(fields[k])
    ensures Kept(fields) == []
  {
    hide AllBlank, Trimmed;
    if fields != [] {
      TrimmedBlank(fields[0]);
      NoneKept(fields[1..]);
    }
  }

  function Emitted(piece: string): seq<string> { if piece == "" then [] else [piece] }

  lemma {:induction false} KeptCons(f: string, rest: seq<string>)
    ensures Kept([f] + rest) == Emitted(Trimmed(f)) + Kept(rest)
  {
    hide Trimmed;
    var fields := [f] + rest;
    assert fields[0] == f && fields[1..] == rest;
  }

  lemma PiecesStep(s: string, beg: nat, i: nat, d: char)
    requires beg <= i < |s| && s[i] == d && d !in s[beg..i]
    ensures Pieces(s[beg..], d) == Emitted(Trimmed(s[beg..i])) + Pieces(s[i + 1..], d)
  {
    hide Fields, Kept, Trimmed, Emitted;
    FieldsCons(s[beg..i], s[i + 1..], d);
    assert s[beg..] == s[beg..i] + [d] + s[i + 1..];
    KeptCons(s[beg..i], Fields(s[i + 1..], d));
  }

  lemma {:induction false} PiecesLast(f: string, d: char)
    requires d !in f
    ensures Pieces(f, d) == Emitted(Trimmed(f))
  {
    FieldsOne(f, d);
    assert Kept([f][1..]) == [];
  }

  lemma FieldTrimmed(s: string, beg: nat, end: nat, left: nat, right: nat)
    requires beg <= end <= |s| && beg <= left <= |s| && right <= end
    requires (forall i :: beg <= i < left ==> IsBlank(s[i])) && (left < |s| ==> !IsBlank(s[left]))
    requires (forall i :: right <= i < end ==> IsBlank(s[i])) && (right > 0 ==> !IsBlank(s[right - 1]))
    ensures Trimmed(s[beg..end]) == if left < right then s[left..right] else ""
  {
    hide Trimmed, IsBlank;
    var f := s[beg..end];
    TrimmedBlank(f);
    forall k | 0 <= k < |f| ensures f[k] == s[beg + k] {}
    if left < right {
      TrimmedIs(f, left - beg, right - beg);
      SliceOfSlice(s, beg, end, left, right);
    } else {
      forall k | 0 <= k < |f| ensures IsBlank(f[k]) { assert f[k] == s[beg + k]; }
    }
  }

  method SplitField(s: string, beg: nat, end: nat) returns (piece: string)
    requires beg <= end <= |s|
    ensures piece == Trimmed(s[beg..end])
  {
    hide Trimmed, IsBlank;
    var left, right := Trim(s, beg, end);
    FieldTrimmed(s, beg, end, left, right);
    piece := if left < right then s[left..right] else "";
  }

  /** The loop of `split`; `trim` may run past the field on either side, which only happens when the
      field is blank. */
  method Split(s: string, d: char) returns (pieces: seq<string>)
    ensures pieces == Pieces(s, d)
  {
    hide Pieces, Trimmed;
    pieces := [];
    var i, beg := 0, 0;
    assert s[0..] == s;
    while i < |s|
      invariant 0 <= beg <= i <= |s|
      invariant d !in s[beg..i]
      invariant Pieces(s, d) == pieces + Pieces(s[beg..], d)
    {
      if s[i] == d {
        var piece := SplitField(s, beg, i);
        PiecesStep(s, beg, i, d);
        pieces := pieces + Emitted(piece);
        beg := i + 1;
      }
      i := i + 1;
    }
    assert s[beg..i] == s[beg..];
    PiecesLast(s[beg..], d);
    if i > 0 {
      var piece := SplitField(s, beg, i);
      pieces := pieces + Emitted(piece);
    }
  }
}
