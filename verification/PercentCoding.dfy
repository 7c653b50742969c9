/** Percent coding (section 2.1 of RFC 3986): `encode_url`, `encode_query_param` and `decode_url`. */
module PercentCoding {
  import opened Text
  import opened Numerals

  predicate IsByte(c: char) { c as int < 256 }

  predicate AllBytes(s: string) { forall i :: 0 <= i < |s| ==> IsByte(s[i]) }

  const NUL: char := '\0'

  function UpperHex(d: nat): char
    requires d < 16
  {
    if d < 10 then ('0' as int + d) as char else ('A' as int + d - 10) as char
  }

  /** `%XX`, upper case. */
  function Escape(c: char): string
    requires IsByte(c)
  {
    ['%', UpperHex(c as int / 16), UpperHex(c as int % 16)]
  }

  // ---- decode_url -------------------------------------------------------------------------------

  /** `from_hex_to_i`: the value of the `count` hexadecimal digits at `i`. */
  function FromHexToI(s: string, i: nat, count: nat): (r: Option<nat>) {
    if i + count <= |s| && i < |s| && AllDigits(s[i..i + count], 16) then Some(Value(s[i..i + count], 16))
    else None
  }

  /** `to_utf8` for codes of up to 16 bits; a surrogate gives nothing. */
  function ToUtf8(code: nat): (r: string)
    requires code < 0x10000
    ensures AllBytes(r)
  {
    if code < 0x80 then [code as char]
    else if code < 0x800 then [(0xC0 + code / 0x40) as char, (0x80 + code % 0x40) as char]
    else if 0xD800 <= code < 0xE000 then ""
    else [(0xE0 + code / 0x1000) as char, (0x80 + code / 0x40 % 0x40) as char, (0x80 + code % 0x40) as char]
  }

  lemma {:induction false} ValueBound(s: string)
    requires AllDigits(s, 16)
    ensures |s| == 2 ==> Value(s, 16) < 256
    ensures |s| == 4 ==> Value(s, 16) < 0x10000
  {
    if |s| == 2 || |s| == 4 {
      TwoDigits(s[..2]);
      assert s[..2][..1] == s[..1];
    }
    if |s| == 4 {
      assert s[..3][..2] == s[..2] && s[..4] == s;
      assert Value(s[..3], 16) == Value(s[..2], 16) * 16 + HexDigit(s[2]).value;
      assert Value(s, 16) == Value(s[..3], 16) * 16 + HexDigit(s[3]).value;
    } else if |s| == 2 {
      assert s[..2] == s;
    }
  }

  lemma {:induction false} TwoDigits(s: string)
    requires |s| == 2 && AllDigits(s, 16)
    ensures Value(s, 16) == HexDigit(s[0]).value * 16 + HexDigit(s[1]).value < 256
  {
    assert s[..1][..0] == "" && s[..1][0] == s[0];
    assert Value(s[..1], 16) == Value(s[..1][..0], 16) * 16 + HexDigit(s[0]).value;
  }

  /** What the percent sign at the front stands for, and how many bytes it takes; a sign that starts no
      escape stands for itself. */
  function Unescape(s: string): (r: (string, nat))
    requires s != "" && s[0] == '%'
    ensures 1 <= r.1 <= |s| && (r.1 == 1 ==> r.0 == "%")
  {
    if |s| == 1 then ("%", 1)
    else if s[1] == 'u' then
      match FromHexToI(s, 2, 4)
      case Some(v) => ValueBound(s[2..6]); (ToUtf8(v), 6)
      case None => ("%", 1)
    else
      match FromHexToI(s, 1, 2)
      case Some(v) => ValueBound(s[1..3]); ([v as char], 3)
      case None => ("%", 1)
  }

  function DecodeUrl(s: string, plus: bool): string {
    if s == "" then ""
    else if s[0] == '%' then Unescape(s).0 + DecodeUrl(s[Unescape(s).1..], plus)
    else [if plus && s[0] == '+' then ' ' else s[0]] + DecodeUrl(s[1..], plus)
  }

  // ---- encode_url -------------------------------------------------------------------------------

  predicate EscapedInUrl(c: char) {
    c == ' ' || c == '+' || c == '\r' || c == '\n' || c == '\'' || c == ',' || c == ';' || c as int >= 0x80
  }

  function EncodeUrlChar(c: char): string
    requires IsByte(c)
  {
    if c == ' ' then "%20"
    else if c == '+' then "%2B"
    else if c == '\r' then "%0D"
    else if c == '\n' then "%0A"
    else if c == '\'' then "%27"
    else if c == ',' then "%2C"
    else if c == ';' then "%3B"
    else if c as int >= 0x80 then Escape(c)
    else [c]
  }

  lemma EncodeUrlCharIs(c: char)
    requires IsByte(c)
    ensures EncodeUrlChar(c) == if EscapedInUrl(c) then Escape(c) else [c]
  {
  }

  /** Stops at the first NUL. */
  function EncodeUrl(s: string): string
    requires AllBytes(s)
  {
    if s == "" || s[0] == NUL then "" else EncodeUrlChar(s[0]) + EncodeUrl(s[1..])
  }

  // ---- encode_query_param -------------------------------------------------------------------------

  predicate KeptInQuery(c: char) {
    '0' <= c <= '9' || 'A' <= c <= 'Z' || 'a' <= c <= 'z' ||
    c == '-' || c == '_' || c == '.' || c == '!' || c == '~' || c == '*' || c == '\'' || c == '(' || c == ')'
  }

  function EncodeQueryChar(c: char): string
    requires IsByte(c)
  {
    if KeptInQuery(c) then [c] else Escape(c)
  }

  function EncodeQueryParam(s: string): string
    requires AllBytes(s)
  {
    if s == "" then "" else EncodeQueryChar(s[0]) + EncodeQueryParam(s[1..])
  }

  // ---- Decoding undoes encoding -----------------------------------------------------------------

  lemma {:induction false} EscapeRead(c: char, rest: string, plus: bool)
    requires IsByte(c)
    ensures DecodeUrl(Escape(c) + rest, plus) == [c] + DecodeUrl(rest, plus)
  {
    var s := Escape(c) + rest;
    assert s[1..3] == [UpperHex(c as int / 16), UpperHex(c as int % 16)];
    TwoDigits(s[1..3]);
    assert s[3..] == rest;
  }

  /** Decoding never makes a text longer. */
  lemma {:induction false} DecodeShrinks(s: string, plus: bool)
    ensures |DecodeUrl(s, plus)| <= |s|
    decreases |s|
  {
    if s != "" {
      if s[0] == '%' {
        UnescapeShrinks(s);
        hide Unescape;
        DecodeShrinks(s[Unescape(s).1..], plus);
      } else {
        DecodeShrinks(s[1..], plus);
      }
    }
  }

  lemma UnescapeShrinks(s: string)
    requires s != "" && s[0] == '%'
    ensures |Unescape(s).0| <= Unescape(s).1
  {
  }

  /** Every byte as an escape. */
  function Escaped(s: string): string
    requires AllBytes(s)
  {
    if s == "" then "" else Escape(s[0]) + Escaped(s[1..])
  }

  lemma {:induction false} EscapedRead(s: string, plus: bool)
    requires AllBytes(s)
    ensures DecodeUrl(Escaped(s), plus) == s
  {
    hide DecodeUrl, Escape;
    if s == "" {
      DecodeEnd(plus);
    } else {
      EscapedRead(s[1..], plus);
      EscapeRead(s[0], Escaped(s[1..]), plus);
      assert s == [s[0]] + s[1..];
    }
  }

  lemma {:induction false} EscapedIs(s: string)
    requires s != "" && AllBytes(s)
    ensures Escaped(s) != "" && NoOuterBlanks(Escaped(s))
  {
    if |s| == 1 {
      assert s[1..] == "";
    } else {
      EscapedIs(s[1..]);
    }
  }

  /** Round trip of `encode_query_param`, for every byte string and either treatment of a plus sign. */
  lemma {:induction false} QueryParamRoundTrip(s: string, plus: bool)
    requires AllBytes(s)
    ensures DecodeUrl(EncodeQueryParam(s), plus) == s
  {
    if s != "" {
      var rest := EncodeQueryParam(s[1..]);
      QueryParamRoundTrip(s[1..], plus);
      if KeptInQuery(s[0]) {
        assert ([s[0]] + rest)[1..] == rest;
      } else {
        EscapeRead(s[0], rest, plus);
      }
      assert s == [s[0]] + s[1..];
    }
  }

  function FormChar(c: char): string
    requires IsByte(c)
  {
    if c == ' ' then "+" else EncodeQueryChar(c)
  }

  /** The form encoding: a space is a plus sign, all else as `encode_query_param` writes it. */
  function FormText(s: string): string
    requires AllBytes(s)
  {
    if s == "" then "" else FormChar(s[0]) + FormText(s[1..])
  }

  function PlusForSpace(s: string): string { seq(|s|, i requires 0 <= i < |s| => if s[i] == ' ' then '+' else s[i]) }

  lemma PlusCons(s: string)
    requires s != ""
    ensures PlusForSpace(s) == [if s[0] == ' ' then '+' else s[0]] + PlusForSpace(s[1..])
  {
  }

  /** Form-encoded text of any bytes decodes to them when plus signs stand for spaces, and otherwise to the
      same with a plus sign for each space. */
  lemma {:induction false} FormRoundTrip(s: string, plus: bool)
    requires AllBytes(s)
    ensures DecodeUrl(FormText(s), plus) == if plus then s else PlusForSpace(s)
  {
    hide PlusForSpace;
    if s == "" {
      NoPlus();
    } else {
      var rest := FormText(s[1..]);
      FormRoundTrip(s[1..], plus);
      PlusCons(s);
      if s[0] == ' ' || KeptInQuery(s[0]) {
        assert (FormChar(s[0]) + rest)[1..] == rest;
      } else {
        EscapeRead(s[0], rest, plus);
      }
      assert s == [s[0]] + s[1..];
    }
  }

  lemma NoPlus()
    ensures PlusForSpace("") == ""
  {
  }

  predicate Unreserved(c: char) {
    '0' <= c <= '9' || 'A' <= c <= 'Z' || 'a' <= c <= 'z' || c in "-_.!~*'()"
  }

  lemma KeptIsUnreserved(c: char)
    ensures KeptInQuery(c) <==> Unreserved(c)
  {
  }

  /** `encode_query_param` leaves a text alone exactly when it is of letters, digits and `-_.!~*'()`. */
  lemma {:induction false} KeptExactly(s: string)
    requires AllBytes(s)
    ensures |EncodeQueryParam(s)| >= |s|
    ensures EncodeQueryParam(s) == s <==> forall i :: 0 <= i < |s| ==> Unreserved(s[i])
  {
    hide KeptInQuery, Unreserved;
    if s != "" {
      var t := s[1..];
      KeptExactly(t);
      KeptIsUnreserved(s[0]);
      assert s == [s[0]] + t;
      assert (forall i :: 0 <= i < |s| ==> Unreserved(s[i])) <==>
             Unreserved(s[0]) && forall i :: 0 <= i < |t| ==> Unreserved(t[i]) by {
        assert forall i :: 0 <= i < |t| ==> t[i] == s[i + 1];
        assert forall i :: 0 < i < |s| ==> s[i] == t[i - 1];
      }
      if KeptInQuery(s[0]) { assert ([s[0]] + EncodeQueryParam(t))[1..] == EncodeQueryParam(t); }
    }
  }

  // ---- What any text decodes to -----------------------------------------------------------------

  /** The pieces of a text: a byte other than a percent sign, the two kinds of escapes with their digits,
      and a percent sign that begins neither. */
  datatype Piece = Literal(c: char) | Byte(digits: string) | Wide(digits: string) | Stray

  predicate IsByteEscape(s: string) { |s| >= 2 && AllDigits(s[..2], 16) }

  predicate IsWideEscape(s: string) { |s| >= 5 && s[0] == 'u' && AllDigits(s[1..5], 16) }

  function PieceText(p: Piece): string {
    match p
    case Literal(c) => [c]
    case Byte(digits) => "%" + digits
    case Wide(digits) => "%u" + digits
    case Stray => "%"
  }

  function TextOf(ps: seq<Piece>): string { if ps == [] then "" else PieceText(ps[0]) + TextOf(ps[1..]) }

  predicate PieceOk(p: Piece, after: string) {
    match p
    case Literal(c) => c != '%'
    case Byte(digits) => |digits| == 2 && AllDigits(digits, 16)
    case Wide(digits) => |digits| == 4 && AllDigits(digits, 16)
    case Stray => !IsByteEscape(after) && !IsWideEscape(after)
  }

  predicate PiecesOk(ps: seq<Piece>) {
    ps == [] || (PieceOk(ps[0], TextOf(ps[1..])) && PiecesOk(ps[1..]))
  }

  function MeaningOf(p: Piece, plus: bool, after: string): string
    requires PieceOk(p, after)
  {
    match p
    case Literal(c) => [if plus && c == '+' then ' ' else c]
    case Byte(digits) => ValueBound(digits); [Value(digits, 16) as char]
    case Wide(digits) => ValueBound(digits); ToUtf8(Value(digits, 16))
    case Stray => "%"
  }

  function Meaning(ps: seq<Piece>, plus: bool): string
    requires PiecesOk(ps)
  {
    if ps == [] then "" else MeaningOf(ps[0], plus, TextOf(ps[1..])) + Meaning(ps[1..], plus)
  }

  lemma {:induction false} ByteRead(digits: string, after: string)
    requires |digits| == 2 && AllDigits(digits, 16)
    ensures Value(digits, 16) < 256
    ensures Unescape("%" + digits + after) == ([Value(digits, 16) as char], 3)
  {
    hide Value, AllDigits, ToUtf8;
    var s := "%" + digits + after;
    assert s[1] == digits[0] && s[1..3] == digits;
    NotAnU(digits);
    ValueBound(digits);
  }

  lemma {:induction false} WideRead(digits: string, after: string)
    requires |digits| == 4 && AllDigits(digits, 16)
    ensures Value(digits, 16) < 0x10000
    ensures Unescape("%u" + digits + after) == (ToUtf8(Value(digits, 16)), 6)
  {
    hide Value, AllDigits, ToUtf8;
    assert ("%u" + digits + after)[2..6] == digits;
    ValueBound(digits);
  }

  lemma {:induction false} StrayRead(after: string)
    requires !IsByteEscape(after) && !IsWideEscape(after)
    ensures Unescape("%" + after) == ("%", 1)
  {
    hide Value, AllDigits, ToUtf8;
    var s := "%" + after;
    if |s| >= 3 { assert s[1..3] == after[..2]; }
    if |s| >= 6 { assert s[2..6] == after[1..5]; }
  }

  lemma {:induction false} PieceRead(p: Piece, after: string, plus: bool)
    requires PieceOk(p, after)
    ensures DecodeUrl(PieceText(p) + after, plus) == MeaningOf(p, plus, after) + DecodeUrl(after, plus)
  {
    hide Value, AllDigits, ToUtf8, Unescape;
    var s := PieceText(p) + after;
    match p
    case Literal(c) => assert s[1..] == after;
    case Byte(digits) =>
      ByteRead(digits, after);
      assert s == "%" + digits + after && s[3..] == after;
    case Wide(digits) =>
      WideRead(digits, after);
      assert s == "%u" + digits + after && s[6..] == after;
    case Stray =>
      StrayRead(after);
      assert s[1..] == after;
  }

  lemma NotAnU(digits: string)
    requires digits != "" && AllDigits(digits, 16)
    ensures digits[0] != 'u'
  {
  }

  /** What `decode_url` makes of a text in pieces. */
  lemma {:induction false} DecodeMeans(ps: seq<Piece>, plus: bool)
    requires PiecesOk(ps)
    ensures DecodeUrl(TextOf(ps), plus) == Meaning(ps, plus)
  {
    hide PieceOk, PieceText, MeaningOf, DecodeUrl;
    if ps == [] {
      DecodeEnd(plus);
    } else {
      DecodeMeans(ps[1..], plus);
      PieceRead(ps[0], TextOf(ps[1..]), plus);
    }
  }

  /** Every text is made of such pieces. */
  lemma {:induction false} InPieces(s: string) returns (ps: seq<Piece>)
    ensures PiecesOk(ps) && TextOf(ps) == s
    decreases |s|
  {
    if s == "" {
      ps := [];
    } else {
      var p := if s[0] != '%' then Literal(s[0])
               else if IsByteEscape(s[1..]) then Byte(s[1..3])
               else if IsWideEscape(s[1..]) then Wide(s[2..6])
               else Stray;
      var used := |PieceText(p)|;
      if |s| >= 3 { assert s[1..][..2] == s[1..3]; }
      if |s| >= 6 { assert s[1..][1..5] == s[2..6]; }
      assert s == PieceText(p) + s[used..];
      var later := InPieces(s[used..]);
      ps := [p] + later;
      assert ps[1..] == later;
    }
  }

  /** What a UTF-8 sequence of up to three bytes stands for (section 3 of RFC 3629). */
  function Utf8Value(s: string): Option<nat> {
    if |s| == 1 && s[0] as int < 0x80 then Some(s[0] as int)
    else if |s| == 2 && 0xC0 <= s[0] as int < 0xE0 && 0x80 <= s[1] as int < 0xC0 then
      Some((s[0] as int - 0xC0) * 0x40 + (s[1] as int - 0x80))
    else if |s| == 3 && 0xE0 <= s[0] as int < 0xF0 && 0x80 <= s[1] as int < 0xC0 && 0x80 <= s[2] as int < 0xC0 then
      Some((s[0] as int - 0xE0) * 0x1000 + (s[1] as int - 0x80) * 0x40 + (s[2] as int - 0x80))
    else None
  }

  lemma Sixes(code: nat)
    requires code < 0x10000
    ensures var high, middle, low := code / 0x1000, code / 0x40 % 0x40, code % 0x40;
            high * 0x1000 + middle * 0x40 + low == code && code / 0x40 == high * 0x40 + middle &&
            high < 0x10 && middle < 0x40 && low < 0x40
  {
    assert code / 0x40 / 0x40 == code / 0x1000;
  }

  /** A wide escape is the shortest UTF-8 of its code, and nothing for a surrogate. */
  lemma Utf8Read(code: nat)
    requires code < 0x10000
    ensures ToUtf8(code) == "" <==> 0xD800 <= code < 0xE000
    ensures ToUtf8(code) != "" ==> Utf8Value(ToUtf8(code)) == Some(code)
    ensures |ToUtf8(code)| == 2 ==> code >= 0x80
    ensures |ToUtf8(code)| == 3 ==> code >= 0x800
  {
    Sixes(code);
  }

  // ---- encode_url preserves what decodes --------------------------------------------------------------

  lemma {:induction false} PlainFirst(s: string)
    requires AllBytes(s) && s != "" && !EscapedInUrl(s[0]) && s[0] != NUL
    ensures EncodeUrl(s) == [s[0]] + EncodeUrl(s[1..])
  {
    EncodeUrlCharIs(s[0]);
  }

  lemma ConsSlices(c: char, t: string, n: nat)
    requires 0 < n <= |t| + 1
    ensures ([c] + t)[..n] == [c] + t[..n - 1] && ([c] + t)[n..] == t[n - 1..]
  {
    var s := [c] + t;
    assert s[..n] == [c] + t[..n - 1] by {
      assert s[..n][0] == c && forall k :: 0 <= k < n - 1 ==> s[..n][k + 1] == t[k];
    }
  }

  /** Digits and the escape letter are never escaped, so a run of them at the front of the encoding is
      the run at the front of the text. */
  lemma {:induction false} PlainRun(s: string, n: nat)
    requires AllBytes(s) && n <= |s| && forall i :: 0 <= i < n ==> !EscapedInUrl(s[i]) && s[i] != NUL
    ensures n <= |EncodeUrl(s)| && EncodeUrl(s)[..n] == s[..n] && EncodeUrl(s)[n..] == EncodeUrl(s[n..])
  {
    hide EncodeUrl, EscapedInUrl;
    if n == 0 {
      assert s[0..] == s && EncodeUrl(s)[0..] == EncodeUrl(s);
    } else {
      var tail := s[1..];
      PlainRun(tail, n - 1);
      PlainFirst(s);
      assert s == [s[0]] + tail;
      ConsSlices(s[0], EncodeUrl(tail), n);
      ConsSlices(s[0], tail, n);
    }
  }

  predicate Plain(c: char) { IsDigit(c, 16) || c == 'u' }

  lemma {:induction false} RunIsPlain(s: string, n: nat)
    requires AllBytes(s) && NUL !in s && n <= |EncodeUrl(s)|
    requires forall i :: 0 <= i < n ==> Plain(EncodeUrl(s)[i])
    ensures n <= |s| && forall i :: 0 <= i < n ==> Plain(s[i])
  {
    if n > 0 {
      var t := EncodeUrl(s[1..]);
      EncodeUrlCharIs(s[0]);
      assert EncodeUrl(s)[0] == EncodeUrlChar(s[0])[0];
      assert EncodeUrl(s) == [s[0]] + t;
      forall i | 0 <= i < n - 1 ensures Plain(t[i]) { assert t[i] == EncodeUrl(s)[i + 1]; }
      RunIsPlain(s[1..], n - 1);
      forall i | 0 <= i < n ensures Plain(s[i]) { if i > 0 { assert s[i] == s[1..][i - 1]; } }
    }
  }

  /** The same escape, or none, starts at a percent sign before and after encoding what follows it. */
  lemma {:induction false} UnescapeEncoded(s: string)
    requires AllBytes(s) && NUL !in s && s != "" && s[0] == '%'
    ensures EncodeUrl(s) == "%" + EncodeUrl(s[1..])
    ensures Unescape(EncodeUrl(s)) == Unescape(s)
    ensures EncodeUrl(s)[Unescape(s).1..] == EncodeUrl(s[Unescape(s).1..])
  {
    hide Unescape, EscapedInUrl, Plain, EncodeUrl;
    var e := EncodeUrl(s);
    EncodePercent(s);
    if Unescape(s).1 > 1 {
      var n := Unescape(s).1;
      EscapeIsPlain(s);
      PlainIsKept(s, n);
      PlainRun(s, n);
      SameFront(s, e, n);
    } else if Unescape(e).1 > 1 {
      var n := Unescape(e).1;
      EscapeIsPlain(e);
      forall i | 0 <= i < n - 1 ensures Plain(EncodeUrl(s[1..])[i]) { assert EncodeUrl(s[1..])[i] == e[i + 1]; }
      RunIsPlain(s[1..], n - 1);
      forall i | 1 <= i < n ensures Plain(s[i]) { assert s[i] == s[1..][i - 1]; }
      PlainIsKept(s, n);
      PlainRun(s, n);
      SameFront(e, s, n);
    }
  }

  lemma {:induction false} EncodePercent(s: string)
    requires AllBytes(s) && NUL !in s && s != "" && s[0] == '%'
    ensures EncodeUrl(s) == "%" + EncodeUrl(s[1..]) && EncodeUrl(s)[1..] == EncodeUrl(s[1..])
  {
    hide EncodeUrl;
    PlainFirst(s);
    ConsSlices(s[0], EncodeUrl(s[1..]), 1);
    assert EncodeUrl(s[1..])[0..] == EncodeUrl(s[1..]);
  }

  lemma PlainIsKept(s: string, n: nat)
    requires 0 < n <= |s| && s[0] == '%' && forall i :: 1 <= i < n ==> Plain(s[i])
    ensures forall i :: 0 <= i < n ==> !EscapedInUrl(s[i]) && s[i] != NUL
  {
  }

  lemma EscapeIsPlain(s: string)
    requires s != "" && s[0] == '%' && Unescape(s).1 > 1
    ensures forall i :: 1 <= i < Unescape(s).1 ==> Plain(s[i])
  {
    if s[1] == 'u' {
      forall i | 2 <= i < 6 ensures Plain(s[i]) { assert s[2..6][i - 2] == s[i]; }
    } else {
      forall i | 1 <= i < 3 ensures Plain(s[i]) { assert s[1..3][i - 1] == s[i]; }
    }
  }

  lemma SameFront(s: string, t: string, n: nat)
    requires s != "" && s[0] == '%' && n == Unescape(s).1 > 1 && n <= |t| && t[..n] == s[..n]
    ensures Unescape(t) == Unescape(s)
  {
    assert t[0] == t[..n][0] == s[0] && t[1] == t[..n][1] == s[1];
    if s[1] == 'u' {
      assert t[2..6] == t[..n][2..6] == s[..n][2..6] == s[2..6];
    } else {
      assert t[1..3] == t[..n][1..3] == s[..n][1..3] == s[1..3];
    }
  }

  lemma {:induction false} DecodeEncoded(s: string)
    requires AllBytes(s) && NUL !in s
    ensures DecodeUrl(EncodeUrl(s), false) == DecodeUrl(s, false)
    decreases |s|
  {
    if s == "" {
    } else if s[0] == '%' {
      UnescapeEncoded(s);
      DecodeEncoded(s[Unescape(s).1..]);
    } else {
      var t := EncodeUrl(s[1..]);
      DecodeEncoded(s[1..]);
      EncodeUrlCharIs(s[0]);
      if EscapedInUrl(s[0]) {
        EscapeRead(s[0], t, false);
      } else {
        assert ([s[0]] + t)[1..] == t;
      }
    }
  }

  /** A NUL ends every escape, so decoding splits at it. */
  lemma {:induction false} DecodeAtNul(p: string, q: string)
    requires NUL !in p
    ensures DecodeUrl(p + [NUL] + q, false) == DecodeUrl(p, false) + [NUL] + DecodeUrl(q, false)
    decreases |p|
  {
    hide Unescape;
    var s := p + [NUL] + q;
    if p == "" {
      assert s[1..] == q;
    } else if p[0] == '%' {
      UnescapeAtNul(p, q);
      var n := Unescape(p).1;
      DecodeAtNul(p[n..], q);
      assert s[n..] == p[n..] + [NUL] + q;
    } else {
      DecodeAtNul(p[1..], q);
      assert s[1..] == p[1..] + [NUL] + q;
    }
  }

  lemma UnescapeAtNul(p: string, q: string)
    requires NUL !in p && p != "" && p[0] == '%'
    ensures Unescape(p + [NUL] + q) == Unescape(p)
  {
    var s := p + [NUL] + q;
    if Unescape(p).1 > 1 {
      SameFront(p, s, Unescape(p).1);
    } else if Unescape(s).1 > 1 {
      var n := Unescape(s).1;
      EscapeIsPlain(s);
      assert s[|p|] == NUL && !Plain(NUL);
      if n <= |p| { SameFront(s, p, n); }
    }
  }

  lemma {:induction false} EncodeStopsAtNul(p: string, q: string)
    requires NUL !in p && AllBytes(p) && AllBytes(q)
    ensures EncodeUrl(p + [NUL] + q) == EncodeUrl(p)
  {
    if p != "" {
      EncodeStopsAtNul(p[1..], q);
      assert (p + [NUL] + q)[1..] == p[1..] + [NUL] + q;
    } else {
      assert (p + [NUL] + q)[0] == NUL;
    }
  }

  function FirstNul(s: string): (k: nat)
    ensures k <= |s| && NUL !in s[..k] && (k < |s| ==> s[k] == NUL)
  {
    if s == "" || s[0] == NUL then 0 else FirstNul(s[1..]) + 1
  }

  /** `encode_url` changes nothing that decodes, stray percent signs, cut escapes and `%uXXXX` included,
      exactly for the texts without a NUL. */
  lemma {:induction false} EncodePreservesMeaning(s: string)
    requires AllBytes(s)
    ensures DecodeUrl(EncodeUrl(s), false) == DecodeUrl(s, false) <==> NUL !in s
  {
    hide Unescape, EncodeUrl, DecodeUrl;
    if NUL in s {
      var k := FirstNul(s);
      var p, q := s[..k], s[k + 1..];
      assert s == p + [NUL] + q;
      EncodeStopsAtNul(p, q);
      DecodeEncoded(p);
      DecodeAtNul(p, q);
      assert |DecodeUrl(s, false)| > |DecodeUrl(p, false)|;
    } else {
      DecodeEncoded(s);
    }
  }

  lemma {:induction false} EncodedIsPlain(s: string)
    requires AllBytes(s)
    ensures forall i :: 0 <= i < |EncodeUrl(s)| ==> !EscapedInUrl(EncodeUrl(s)[i]) && EncodeUrl(s)[i] != NUL
    ensures AllBytes(EncodeUrl(s))
  {
    if s != "" && s[0] != NUL {
      EncodedIsPlain(s[1..]);
      EncodeUrlCharIs(s[0]);
    }
  }

  /** Encoding twice is encoding once. */
  lemma {:induction false} EncodeIdempotent(s: string)
    requires AllBytes(s)
    ensures AllBytes(EncodeUrl(s)) && EncodeUrl(EncodeUrl(s)) == EncodeUrl(s)
  {
    EncodedIsPlain(s);
    var e := EncodeUrl(s);
    PlainRun(e, |e|);
    assert e[|e|..] == "" && e[..|e|] == e;
    assert EncodeUrl(e) == EncodeUrl(e)[..|e|] + EncodeUrl(e)[|e|..];
  }

  // ---- The loops ------------------------------------------------------------------------------------

  lemma EncodeStep(s: string, i: nat, result: string)
    requires AllBytes(s) && i < |s| && s[i] != NUL
    ensures result + EncodeUrl(s[i..]) == result + EncodeUrlChar(s[i]) + EncodeUrl(s[i + 1..])
  {
    hide EncodeUrlChar;
    assert s[i..][1..] == s[i + 1..];
  }

  lemma {:induction false} EncodeEnd(s: string)
    requires AllBytes(s) && (s == "" || s[0] == NUL)
    ensures EncodeUrl(s) == ""
  {
  }

  method EncodeUrlLoop(s: string) returns (result: string)
    requires AllBytes(s)
    ensures result == EncodeUrl(s)
  {
    hide EncodeUrl, EncodeUrlChar;
    result := "";
    var i := 0;
    assert s[0..] == s;
    while i < |s| && s[i] != NUL
      invariant 0 <= i <= |s|
      invariant EncodeUrl(s) == result + EncodeUrl(s[i..])
    {
      EncodeStep(s, i, result);
      result := result + EncodeUrlChar(s[i]);
      i := i + 1;
    }
    EncodeEnd(s[i..]);
  }

  lemma {:induction false} QueryStep(value: string, i: nat, escaped: string)
    requires AllBytes(value) && i < |value|
    ensures escaped + EncodeQueryParam(value[i..]) ==
            escaped + EncodeQueryChar(value[i]) + EncodeQueryParam(value[i + 1..])
  {
    hide EncodeQueryChar;
    assert value[i..][1..] == value[i + 1..];
  }

  lemma NoQuery()
    ensures EncodeQueryParam("") == ""
  {
  }

  method EncodeQueryParamLoop(value: string) returns (escaped: string)
    requires AllBytes(value)
    ensures escaped == EncodeQueryParam(value)
  {
    hide EncodeQueryParam, EncodeQueryChar;
    escaped := "";
    assert value[0..] == value;
    for i := 0 to |value|
      invariant EncodeQueryParam(value) == escaped + EncodeQueryParam(value[i..])
    {
      QueryStep(value, i, escaped);
      escaped := escaped + EncodeQueryChar(value[i]);
    }
    NoQuery();
    assert value[|value|..] == "";
  }

  lemma BadDigit(s: string, i0: nat, count: nat, k: nat)
    requires k < count && i0 + k < |s| && HexDigit(s[i0 + k]).None?
    ensures i0 + count <= |s| ==> !AllDigits(s[i0..i0 + count], 16)
  {
    if i0 + count <= |s| { assert s[i0..i0 + count][k] == s[i0 + k]; }
  }

  /** The digit loop of `from_hex_to_i`. */
  method FromHexToILoop(s: string, i0: nat, count: nat) returns (ok: bool, val: nat)
    ensures ok == FromHexToI(s, i0, count).Some?
    ensures ok ==> val == FromHexToI(s, i0, count).value
  {
    hide Value, AllDigits, HexDigit;
    val := 0;
    if i0 >= |s| { return false, 0; }
    var k := 0;
    NoDigits(16);
    assert s[i0..i0] == "";
    while k < count
      invariant 0 <= k <= count && i0 + k <= |s|
      invariant AllDigits(s[i0..i0 + k], 16) && val == Value(s[i0..i0 + k], 16)
    {
      if i0 + k == |s| || HexDigit(s[i0 + k]).None? {
        if i0 + k < |s| { BadDigit(s, i0, count, k); }
        return false, val;
      }
      assert s[i0..i0 + k + 1] == s[i0..i0 + k] + [s[i0 + k]];
      ValueSnoc(s[i0..i0 + k], s[i0 + k], 16);
      val := val * 16 + HexDigit(s[i0 + k]).value;
      k := k + 1;
    }
    ok := true;
  }

  /** One percent sign of `decode_url`. */
  method UnescapeAt(s: string, i: nat) returns (text: string, used: nat)
    requires i < |s| && s[i] == '%'
    ensures (text, used) == Unescape(s[i..])
  {
    ghost var t := s[i..];
    if i + 1 == |s| { return "%", 1; }
    if s[i + 1] == 'u' {
      var ok, val := FromHexToILoop(s, i + 2, 4);
      if i + 6 <= |s| { assert s[i + 2..i + 6] == t[2..6]; }
      if !ok { return "%", 1; }
      ValueBound(t[2..6]);
      return ToUtf8(val), 6;
    }
    var ok, val := FromHexToILoop(s, i + 1, 2);
    if i + 3 <= |s| { assert s[i + 1..i + 3] == t[1..3]; }
    if !ok { return "%", 1; }
    ValueBound(t[1..3]);
    return [val as char], 3;
  }

  function Decoded(s: string, plus: bool): (string, nat)
    requires s != ""
  {
    if s[0] == '%' then Unescape(s) else ([if plus && s[0] == '+' then ' ' else s[0]], 1)
  }

  lemma DecodedFront(s: string, plus: bool)
    requires s != ""
    ensures var (text, used) := Decoded(s, plus);
            used <= |s| && DecodeUrl(s, plus) == text + DecodeUrl(s[used..], plus)
  {
    hide Unescape;
  }

  lemma DecodeStep(s: string, i: nat, plus: bool, result: string)
    requires i < |s|
    ensures var (text, used) := Decoded(s[i..], plus);
            && i + used <= |s|
            && result + DecodeUrl(s[i..], plus) == result + text + DecodeUrl(s[i + used..], plus)
  {
    hide Unescape, DecodeUrl, Decoded;
    DecodedFront(s[i..], plus);
    var (text, used) := Decoded(s[i..], plus);
    assert s[i..][used..] == s[i + used..];
    assert result + (text + DecodeUrl(s[i + used..], plus)) == result + text + DecodeUrl(s[i + used..], plus);
  }

  method DecodeUrlLoop(s: string, plus: bool) returns (result: string)
    ensures result == DecodeUrl(s, plus)
  {
    hide DecodeUrl, Unescape;
    result := "";
    var i := 0;
    assert s[0..] == s;
    while i < |s|
      invariant 0 <= i <= |s|
      invariant DecodeUrl(s, plus) == result + DecodeUrl(s[i..], plus)
    {
      DecodeStep(s, i, plus, result);
      if s[i] == '%' {
        var text, used := UnescapeAt(s, i);
        result := result + text;
        i := i + used;
      } else {
        result := result + [if plus && s[i] == '+' then ' ' else s[i]];
        i := i + 1;
      }
    }
    assert s[i..] == "";
    DecodeEnd(plus);
  }

  lemma {:induction false} DecodeEnd(plus: bool)
    ensures DecodeUrl("", plus) == ""
  {
  }
}
