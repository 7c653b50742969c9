/** `base64_encode` (section 4 of RFC 4648), whose `int` accumulator overflows after four bytes. */
module Base64 {
  import Bytes
  import opened PercentCoding

  const WORD := 0x1_0000_0000

  /** The value an `int` keeps of an integer: two's complement, 32 bits. */
  function Wrap32(x: int): (r: int)
    ensures -0x8000_0000 <= r < 0x8000_0000 && r % WORD == x % WORD
  {
    (x + 0x8000_0000) % WORD - 0x8000_0000
  }

  function Lookup(v: nat): char
    requires v < 64
  {
    if v < 26 then ('A' as int + v) as char
    else if v < 52 then ('a' as int + v - 26) as char
    else if v < 62 then ('0' as int + v - 52) as char
    else if v == 62 then '+' else '/'
  }

  /** `(val >> shift) & 0x3F` for the shifts the code makes. */
  function Sextet(val: int, shift: int): (r: nat)
    ensures r < 64
  {
    (if shift == 0 then val else if shift == 2 then val / 4 else if shift == 4 then val / 16 else val / 64) % 64
  }

  // ---- The algorithm, with an accumulator that never overflows ---------------------------------------

  function Acc(s: string): nat { if s == "" then 0 else Acc(s[..|s| - 1]) * 256 + s[|s| - 1] as int }

  /** `valb` after `n` bytes. */
  function ValB(n: nat): (valb: int)
    ensures -6 <= valb <= -2
  {
    if n % 3 == 0 then -6 else if n % 3 == 1 then -4 else -2
  }

  /** The inner loop: one character for each six bits at hand. */
  function Emit(val: int, valb: int): string
    requires valb <= 6
    decreases valb + 6
  {
    if valb < 0 then "" else [Lookup(Sextet(val, valb))] + Emit(val, valb - 6)
  }

  function Chars(s: string): string {
    if s == "" then "" else Chars(s[..|s| - 1]) + Emit(Acc(s), ValB(|s| - 1) + 8)
  }

  /** The bits left over, if any, on the left of a last character. */
  function LastChar(val: int, valb: int): string
    requires -6 <= valb <= 0
  {
    if valb > -6 then [Lookup(Sextet(val * 256, valb + 8))] else ""
  }

  function Pad(s: string): string { if |s| % 4 == 0 then s else s + "===="[..4 - |s| % 4] }

  function Unbounded(s: string): string { Pad(Chars(s) + LastChar(Acc(s), ValB(|s|))) }

  // ---- The code -------------------------------------------------------------------------------------

  lemma SameBits(x: int, y: int, shift: int)
    requires x % WORD == y % WORD
    ensures Sextet(x, shift) == Sextet(y, shift)
  {
    var m := (x - y) / WORD;
    assert x == y + WORD * m;
    assert x / 4 == y / 4 + 0x4000_0000 * m;
    assert x / 16 == y / 16 + 0x1000_0000 * m;
    assert x / 64 == y / 64 + 0x400_0000 * m;
    Mod64(x, y, 0x400_0000 * m);
    Mod64(x / 4, y / 4, 0x100_0000 * m);
    Mod64(x / 16, y / 16, 0x40_0000 * m);
    Mod64(x / 64, y / 64, 0x10_0000 * m);
  }

  lemma Mod64(x: int, y: int, k: int)
    requires x == y + 64 * k
    ensures x % 64 == y % 64
  {
  }

  lemma {:induction false} SameEmit(x: int, y: int, valb: int)
    requires x % WORD == y % WORD && valb <= 6
    ensures Emit(x, valb) == Emit(y, valb)
    decreases valb + 6
  {
    if valb >= 0 {
      SameBits(x, y, valb);
      SameEmit(x, y, valb - 6);
    }
  }

  lemma FromMod(x: int, y: int) returns (k: int)
    requires x % WORD == y % WORD
    ensures x == y + WORD * k
  {
    k := (x - y) / WORD;
  }

  lemma ToMod(x: int, y: int, k: int)
    requires x == y + WORD * k
    ensures x % WORD == y % WORD
  {
  }

  lemma WrapStep(val: int, acc: int, c: int)
    requires val % WORD == acc % WORD
    ensures Wrap32(Wrap32(val * 256) + c) % WORD == (acc * 256 + c) % WORD
  {
    var m := FromMod(val, acc);
    var u := Wrap32(val * 256);
    var k := FromMod(u, val * 256);
    ToMod(u + c, acc * 256 + c, k + 256 * m);
  }

  /** The inner loop of the code. */
  method EmitLoop(val: int, valb0: int, out0: string) returns (out: string, valb: int)
    requires 2 <= valb0 <= 6
    ensures out == out0 + Emit(val, valb0) && valb == (if valb0 == 6 then -6 else valb0 - 6)
  {
    out, valb := out0, valb0;
    while valb >= 0
      invariant -6 <= valb <= 6 && (valb == valb0 || valb == valb0 - 6 || valb == valb0 - 12)
      invariant out0 + Emit(val, valb0) == out + Emit(val, valb)
      decreases valb + 6
    {
      assert out + ([Lookup(Sextet(val, valb))] + Emit(val, valb - 6)) ==
             out + [Lookup(Sextet(val, valb))] + Emit(val, valb - 6);
      out := out + [Lookup(Sextet(val, valb))];
      valb := valb - 6;
    }
  }

  lemma {:induction false} AccSnoc(s: string, c: char)
    ensures Acc(s + [c]) == Acc(s) * 256 + c as int
  {
    var t := s + [c];
    assert t[..|t| - 1] == s;
  }

  lemma {:induction false} CharsUnfold(t: string)
    requires t != ""
    ensures Chars(t) == Chars(t[..|t| - 1]) + Emit(Acc(t), ValB(|t| - 1) + 8)
  {
    hide Emit, Acc, ValB;
  }

  lemma {:induction false} CharsAppend(s: string, c: char)
    ensures Chars(s + [c]) == Chars(s) + Emit(Acc(s + [c]), ValB(|s|) + 8)
  {
    hide Emit, Acc, ValB, Chars;
    var t := s + [c];
    CharsUnfold(t);
    assert t[..|t| - 1] == s;
  }

  lemma {:induction false} ByteStep(s: string, c: char, val: int)
    requires val % WORD == Acc(s) % WORD
    ensures var val' := Wrap32(Wrap32(val * 256) + c as int);
            && val' % WORD == Acc(s + [c]) % WORD
            && Chars(s + [c]) == Chars(s) + Emit(val', ValB(|s|) + 8)
  {
    hide Emit, Wrap32, Chars, Acc, ValB;
    AccSnoc(s, c);
    CharsAppend(s, c);
    WrapStep(val, Acc(s), c as int);
    SameEmit(Wrap32(Wrap32(val * 256) + c as int), Acc(s + [c]), ValB(|s|) + 8);
  }

  lemma EmptyByteString()
    ensures Acc("") == 0 && Chars("") == ""
  {
  }

  /** The loop over the bytes. */
  method EncodeBytes(s: string) returns (out: string, val: int, valb: int)
    requires AllBytes(s)
    ensures out == Chars(s) && valb == ValB(|s|) && val % WORD == Acc(s) % WORD
  {
    hide Sextet, Emit, Wrap32, Acc, Chars;
    EmptyByteString();
    out, val, valb := "", 0, -6;
    for i := 0 to |s|
      invariant valb == ValB(i) && val % WORD == Acc(s[..i]) % WORD
      invariant out == Chars(s[..i])
    {
      ByteStep(s[..i], s[i], val);
      assert s[..i + 1] == s[..i] + [s[i]];
      val := Wrap32(Wrap32(val * 256) + s[i] as int);
      out, valb := EmitLoop(val, valb + 8, out);
    }
    assert s[..|s|] == s;
  }

  method PadLoop(body: string) returns (out: string)
    ensures out == Pad(body)
  {
    out := body;
    while |out| % 4 != 0
      invariant Pad(body) == Pad(out)
      decreases (4 - |out| % 4) % 4
    {
      PadStep(out);
      out := out + "=";
    }
  }

  /** `base64_encode`: the truncated accumulator gives what an unbounded one would. */
  method Encode(s: string) returns (out: string)
    requires AllBytes(s)
    ensures out == Unbounded(s)
  {
    var val, valb;
    out, val, valb := EncodeBytes(s);
    if valb > -6 {
      LastBits(val, Acc(s), valb);
      out := out + [Lookup(Sextet(Wrap32(val * 256), valb + 8))];
    } else {
      assert out + "" == out;
    }
    out := PadLoop(out);
  }

  lemma LastBits(val: int, acc: int, valb: int)
    requires val % WORD == acc % WORD
    ensures Sextet(Wrap32(val * 256), valb + 8) == Sextet(acc * 256, valb + 8)
  {
    hide Wrap32, Sextet;
    var m := FromMod(val, acc);
    ToMod(val * 256, acc * 256, 256 * m);
    SameBits(Wrap32(val * 256), acc * 256, valb + 8);
  }

  lemma PadStep(out: string)
    requires |out| % 4 != 0
    ensures Pad(out + "=") == Pad(out)
  {
    var k := 4 - |out| % 4;
    assert "===="[..k] == "=" + "===="[..k - 1];
  }

  // ---- What it computes -------------------------------------------------------------------------------

  /** Three bytes to four characters; one or two left over, padded. */
  function Blocks(s: string): (r: string)
    requires AllBytes(s)
    ensures |r| == 4 * ((|s| + 2) / 3)
  {
    if s == "" then ""
    else
      var a := s[0] as int;
      if |s| == 1 then [Lookup(a / 4), Lookup(a % 4 * 16), '=', '=']
      else
        var b := s[1] as int;
        if |s| == 2 then [Lookup(a / 4), Lookup(a % 4 * 16 + b / 16), Lookup(b % 16 * 4), '=']
        else
          var c := s[2] as int;
          [Lookup(a / 4), Lookup(a % 4 * 16 + b / 16), Lookup(b % 16 * 4 + c / 64), Lookup(c % 64)] + Blocks(s[3..])
  }

  /** The characters the byte `c` at index `i` lets out, `p` being the byte before it. */
  function Piece(p: int, c: int, i: nat): string
    requires 0 <= p < 256 && 0 <= c < 256
  {
    if i % 3 == 0 then [Lookup(c / 4)]
    else if i % 3 == 1 then [Lookup(p % 4 * 16 + c / 16)]
    else [Lookup(p % 16 * 4 + c / 64), Lookup(c % 64)]
  }

  function Before(s: string): int { if |s| < 2 then 0 else s[|s| - 2] as int }

  lemma {:induction false} AccEnd(s: string)
    requires s != "" && AllBytes(s)
    ensures exists m :: Acc(s) == m * 65536 + Before(s) * 256 + s[|s| - 1] as int
  {
    if |s| == 1 {
      assert Acc(s[..0]) == 0;
      assert Acc(s) == 0 * 65536 + Before(s) * 256 + s[0] as int;
    } else {
      var t := s[..|s| - 1];
      var m := Acc(t[..|t| - 1]);
      assert t[|t| - 1] == s[|s| - 2];
      assert Acc(t) == m * 256 + Before(s);
      assert Acc(s) == m * 65536 + Before(s) * 256 + s[|s| - 1] as int;
    }
  }

  lemma {:induction false} PieceIs(s: string)
    requires s != "" && AllBytes(s)
    ensures Emit(Acc(s), ValB(|s| - 1) + 8) == Piece(Before(s), s[|s| - 1] as int, |s| - 1)
  {
    AccEnd(s);
    var m :| Acc(s) == m * 65536 + Before(s) * 256 + s[|s| - 1] as int;
    EmitIs(Acc(s), m, Before(s), s[|s| - 1] as int, |s| - 1);
  }

  /** The shifted value, cut at six bits, each shift by itself. */
  lemma Shift2(v: int, m: int, p: int, c: int)
    requires 0 <= p < 256 && 0 <= c < 256 && v == m * 65536 + p * 256 + c
    ensures Sextet(v, 2) == c / 4 && Sextet(v, 0) == c % 64
  {
    assert v / 4 == c / 4 + 64 * (m * 256 + p);
    Mod64(v / 4, c / 4, m * 256 + p);
    Mod64(v, c, m * 1024 + p * 4);
  }

  lemma Shift4(v: int, m: int, p: int, c: int)
    requires 0 <= p < 256 && 0 <= c < 256 && v == m * 65536 + p * 256 + c
    ensures Sextet(v, 4) == p % 4 * 16 + c / 16
  {
    assert v / 16 == p % 4 * 16 + c / 16 + 64 * (m * 64 + p / 4);
    Mod64(v / 16, p % 4 * 16 + c / 16, m * 64 + p / 4);
  }

  lemma Shift6(v: int, m: int, p: int, c: int)
    requires 0 <= p < 256 && 0 <= c < 256 && v == m * 65536 + p * 256 + c
    ensures Sextet(v, 6) == p % 16 * 4 + c / 64
  {
    assert v / 64 == p % 16 * 4 + c / 64 + 64 * (m * 16 + p / 16);
    Mod64(v / 64, p % 16 * 4 + c / 64, m * 16 + p / 16);
  }

  lemma EmitIs(v: int, m: int, p: int, c: int, i: nat)
    requires 0 <= p < 256 && 0 <= c < 256 && v == m * 65536 + p * 256 + c
    ensures Emit(v, ValB(i) + 8) == Piece(p, c, i)
  {
    hide Sextet, Lookup;
    Shift2(v, m, p, c);
    Shift4(v, m, p, c);
    Shift6(v, m, p, c);
    assert Emit(v, -6) == "" && Emit(v, -4) == "" && Emit(v, -2) == "";
    assert Emit(v, 0) == [Lookup(Sextet(v, 0))];
  }

  lemma {:induction false} CharsAfterBlockStep(a: string, t: string)
    requires |a| == 3 && AllBytes(a) && AllBytes(t) && t != ""
    requires Chars(a + t[..|t| - 1]) == Chars(a) + Chars(t[..|t| - 1])
    ensures Chars(a + t) == Chars(a) + Chars(t)
  {
    hide Chars, Lookup, Emit, Sextet, Acc, Piece;
    var s, init := a + t, t[..|t| - 1];
    assert s[..|s| - 1] == a + init;
    CharsSnoc(s);
    CharsSnoc(t);
    var piece := Piece(Before(t), t[|t| - 1] as int, |t| - 1);
    SamePiece(a, t);
    Bytes.Assoc(Chars(a), Chars(init), piece);
  }

  lemma SamePiece(a: string, t: string)
    requires |a| == 3 && AllBytes(a) && AllBytes(t) && t != ""
    ensures var s := a + t;
            Piece(Before(s), s[|s| - 1] as int, |s| - 1) == Piece(Before(t), t[|t| - 1] as int, |t| - 1)
  {
    hide Lookup;
    var s := a + t;
    assert s[|s| - 1] == t[|t| - 1];
    assert (|s| - 1) % 3 == (|t| - 1) % 3;
    if |t| >= 2 { assert s[|s| - 2] == t[|t| - 2]; }
  }

  /** Whole blocks in front do not change what follows. */
  lemma {:induction false} CharsAfterBlock(a: string, t: string)
    requires |a| == 3 && AllBytes(a) && AllBytes(t)
    ensures Chars(a + t) == Chars(a) + Chars(t)
    decreases |t|
  {
    if t == "" {
      assert a + t == a;
    } else {
      CharsAfterBlock(a, t[..|t| - 1]);
      CharsAfterBlockStep(a, t);
    }
  }

  lemma {:induction false} CharsSnoc(s: string)
    requires s != "" && AllBytes(s)
    ensures Chars(s) == Chars(s[..|s| - 1]) + Piece(Before(s), s[|s| - 1] as int, |s| - 1)
  {
    PieceIs(s);
  }

  lemma OneChars(a: char)
    requires IsByte(a)
    ensures Chars([a]) == [Lookup(a as int / 4)]
  {
    CharsSnoc([a]);
    assert [a][..0] == "";
  }

  lemma TwoChars(a: char, b: char)
    requires IsByte(a) && IsByte(b)
    ensures Chars([a, b]) == [Lookup(a as int / 4), Lookup(a as int % 4 * 16 + b as int / 16)]
  {
    OneChars(a);
    CharsSnoc([a, b]);
    assert [a, b][..1] == [a];
  }

  lemma ThreeChars(a: char, b: char, c: char)
    requires IsByte(a) && IsByte(b) && IsByte(c)
    ensures Chars([a, b, c]) ==
            [Lookup(a as int / 4), Lookup(a as int % 4 * 16 + b as int / 16),
             Lookup(b as int % 16 * 4 + c as int / 64), Lookup(c as int % 64)]
  {
    TwoChars(a, b);
    CharsSnoc([a, b, c]);
    assert [a, b, c][..2] == [a, b];
  }

  function Tail(s: string): string { LastChar(Acc(s), ValB(|s|)) }

  lemma TailIs(s: string)
    requires AllBytes(s)
    ensures |s| % 3 == 0 ==> Tail(s) == ""
    ensures |s| % 3 == 1 ==> Tail(s) == [Lookup(s[|s| - 1] as int % 4 * 16)]
    ensures |s| % 3 == 2 ==> Tail(s) == [Lookup(s[|s| - 1] as int % 16 * 4)]
  {
    if |s| % 3 != 0 {
      AccEnd(s);
      var m :| Acc(s) == m * 65536 + Before(s) * 256 + s[|s| - 1] as int;
      LastSextets(Acc(s), m, Before(s), s[|s| - 1] as int);
    }
  }

  lemma LastSextets(v: int, m: int, p: int, c: int)
    requires 0 <= p < 256 && 0 <= c < 256 && v == m * 65536 + p * 256 + c
    ensures Sextet(v * 256, 4) == c % 4 * 16 && Sextet(v * 256, 6) == c % 16 * 4
  {
    LastTwo(v, m * 16384 + p * 64, c);
    LastFour(v, m * 4096 + p * 16, c);
  }

  lemma LastTwo(v: int, k: int, c: int)
    requires 0 <= c < 256 && v == k * 4 + c
    ensures Sextet(v * 256, 4) == c % 4 * 16
  {
    assert v * 256 / 16 == v * 16 == c % 4 * 16 + 64 * (k + c / 4);
    Mod64(v * 16, c % 4 * 16, k + c / 4);
  }

  lemma LastFour(v: int, k: int, c: int)
    requires 0 <= c < 256 && v == k * 16 + c
    ensures Sextet(v * 256, 6) == c % 16 * 4
  {
    assert v * 256 / 64 == v * 4 == c % 16 * 4 + 64 * (k + c / 16);
    Mod64(v * 4, c % 16 * 4, k + c / 16);
  }

  lemma PadBlock(block: string, t: string)
    requires |block| == 4
    ensures Pad(block + t) == block + Pad(t)
  {
    assert |block + t| % 4 == |t| % 4;
    if |t| % 4 != 0 { Bytes.Assoc(block, t, "===="[..4 - |t| % 4]); }
  }

  /** The accumulator algorithm is block encoding. */
  lemma {:induction false} UnboundedIsBlocks(s: string)
    requires AllBytes(s)
    ensures Unbounded(s) == Blocks(s)
    decreases |s|
  {
    hide Unbounded, Blocks, Lookup, Chars;
    if s == "" {
      NoBlocks();
    } else if |s| == 1 {
      UnboundedOne(s);
    } else if |s| == 2 {
      UnboundedTwo(s);
    } else {
      assert s[..3] == [s[0], s[1], s[2]];
      ThreeChars(s[0], s[1], s[2]);
      BlockStep(s[..3], s[3..]);
      assert s == s[..3] + s[3..];
      UnboundedIsBlocks(s[3..]);
      BlocksHead(s);
    }
  }

  lemma NoBlocks()
    ensures Blocks("") == "" && Unbounded("") == ""
  {
  }

  lemma {:induction false} BlocksHead(s: string)
    requires AllBytes(s) && |s| >= 3
    ensures Blocks(s) == [Lookup(s[0] as int / 4), Lookup(s[0] as int % 4 * 16 + s[1] as int / 16),
                          Lookup(s[1] as int % 16 * 4 + s[2] as int / 64), Lookup(s[2] as int % 64)] + Blocks(s[3..])
  {
  }

  lemma {:induction false} UnboundedOne(s: string)
    requires AllBytes(s) && |s| == 1
    ensures Unbounded(s) == Blocks(s)
  {
    hide Chars, Emit, Sextet, Lookup, LastChar, Acc, Pad;
    assert s == [s[0]];
    OneChars(s[0]);
    TailIs(s);
    PadTwo(Chars(s) + Tail(s));
  }

  lemma PadTwo(t: string)
    requires |t| == 2
    ensures Pad(t) == t + "=="
  {
    assert "===="[..2] == "==";
  }

  lemma PadThree(t: string)
    requires |t| == 3
    ensures Pad(t) == t + "="
  {
    assert "===="[..1] == "=";
  }

  lemma {:induction false} UnboundedTwo(s: string)
    requires AllBytes(s) && |s| == 2
    ensures Unbounded(s) == Blocks(s)
  {
    hide Chars, Emit, Sextet, Lookup, LastChar, Acc, Pad;
    assert s == [s[0], s[1]];
    TwoChars(s[0], s[1]);
    TailIs(s);
    PadThree(Chars(s) + Tail(s));
  }

  lemma SameTail(a: string, t: string)
    requires |a| == 3 && AllBytes(a) && AllBytes(t)
    ensures Tail(a + t) == Tail(t)
  {
    hide Lookup, LastChar, Acc, Tail;
    TailIs(a + t);
    TailIs(t);
    assert t != "" ==> (a + t)[|a + t| - 1] == t[|t| - 1];
  }

  lemma {:induction false} BlockStep(a: string, t: string)
    requires |a| == 3 && AllBytes(a) && AllBytes(t) && |Chars(a)| == 4
    ensures Unbounded(a + t) == Chars(a) + Unbounded(t)
  {
    CharsAfterBlock(a, t);
    SameTail(a, t);
    assert Chars(a) + Chars(t) + Tail(t) == Chars(a) + (Chars(t) + Tail(t));
    PadBlock(Chars(a), Chars(t) + Tail(t));
  }

  // ---- Decoding -----------------------------------------------------------------------------------------

  function Index(c: char): (v: nat)
    ensures v < 64
  {
    if 'A' <= c <= 'Z' then c as int - 'A' as int
    else if 'a' <= c <= 'z' then c as int - 'a' as int + 26
    else if '0' <= c <= '9' then c as int - '0' as int + 52
    else if c == '+' then 62
    else if c == '/' then 63
    else 0
  }

  lemma IndexOfLookup(v: nat)
    requires v < 64
    ensures Index(Lookup(v)) == v && Lookup(v) != '='
  {
  }

  /** Four characters to three bytes; padding tells how many. */
  function DecodeQuad(p: char, q: char, r: char, s: char): string {
    var w, x, y, z := Index(p), Index(q), Index(r), Index(s);
    var a := (w * 4 + x / 16) as char;
    var b := (x % 16 * 16 + y / 4) as char;
    var c := (y % 4 * 64 + z) as char;
    if r == '=' then [a] else if s == '=' then [a, b] else [a, b, c]
  }

  function Decode(t: string): string {
    if |t| < 4 then "" else DecodeQuad(t[0], t[1], t[2], t[3]) + Decode(t[4..])
  }

  lemma {:induction false} DecodeCons(p: char, q: char, r: char, s: char, rest: string)
    ensures Decode([p, q, r, s] + rest) == DecodeQuad(p, q, r, s) + Decode(rest)
  {
    hide DecodeQuad;
    assert ([p, q, r, s] + rest)[4..] == rest;
  }

  lemma BytePieces(a: int, b: int, c: int)
    requires 0 <= a < 256 && 0 <= b < 256 && 0 <= c < 256
    ensures var w, x, y, z := a / 4, a % 4 * 16 + b / 16, b % 16 * 4 + c / 64, c % 64;
            w * 4 + x / 16 == a && x % 16 * 16 + y / 4 == b && y % 4 * 64 + z == c
  {
  }

  lemma FullQuad(a: char, b: char, c: char)
    requires IsByte(a) && IsByte(b) && IsByte(c)
    ensures DecodeQuad(Lookup(a as int / 4), Lookup(a as int % 4 * 16 + b as int / 16),
                       Lookup(b as int % 16 * 4 + c as int / 64), Lookup(c as int % 64)) == [a, b, c]
  {
    hide Lookup, Index;
    IndexOfLookup(a as int / 4);
    IndexOfLookup(a as int % 4 * 16 + b as int / 16);
    IndexOfLookup(b as int % 16 * 4 + c as int / 64);
    IndexOfLookup(c as int % 64);
    BytePieces(a as int, b as int, c as int);
  }

  lemma ThreeQuarters(a: char, b: char)
    requires IsByte(a) && IsByte(b)
    ensures DecodeQuad(Lookup(a as int / 4), Lookup(a as int % 4 * 16 + b as int / 16),
                       Lookup(b as int % 16 * 4), '=') == [a, b]
  {
    hide Lookup, Index;
    IndexOfLookup(a as int / 4);
    IndexOfLookup(a as int % 4 * 16 + b as int / 16);
    IndexOfLookup(b as int % 16 * 4);
    BytePieces(a as int, b as int, 0);
  }

  lemma HalfQuad(a: char)
    requires IsByte(a)
    ensures DecodeQuad(Lookup(a as int / 4), Lookup(a as int % 4 * 16), '=', '=') == [a]
  {
    hide Lookup, Index;
    IndexOfLookup(a as int / 4);
    IndexOfLookup(a as int % 4 * 16);
  }

  /** A decoder gets every byte string back. */
  lemma {:induction false} DecodeBlocks(s: string)
    requires AllBytes(s)
    ensures Decode(Blocks(s)) == s
    decreases |s|
  {
    hide Lookup, Index, Decode, Blocks, DecodeQuad;
    if s == "" {
      DecodeNothing();
      NoBlocks();
    } else if |s| == 1 {
      DecodeOne(s);
    } else if |s| == 2 {
      DecodeTwo(s);
    } else {
      var rest := Blocks(s[3..]);
      BlocksHead(s);
      FullQuad(s[0], s[1], s[2]);
      DecodeCons(Lookup(s[0] as int / 4), Lookup(s[0] as int % 4 * 16 + s[1] as int / 16),
                 Lookup(s[1] as int % 16 * 4 + s[2] as int / 64), Lookup(s[2] as int % 64), rest);
      DecodeBlocks(s[3..]);
      assert s == [s[0], s[1], s[2]] + s[3..];
    }
  }

  lemma DecodeNothing()
    ensures Decode("") == ""
  {
  }

  lemma {:induction false} DecodeOne(s: string)
    requires AllBytes(s) && |s| == 1
    ensures Decode(Blocks(s)) == s
  {
    hide Decode, Lookup, Index;
    DecodeNothing();
    HalfQuad(s[0]);
    DecodeCons(Lookup(s[0] as int / 4), Lookup(s[0] as int % 4 * 16), '=', '=', "");
    assert Blocks(s) == [Lookup(s[0] as int / 4), Lookup(s[0] as int % 4 * 16), '=', '='] + "";
  }

  lemma {:induction false} DecodeTwo(s: string)
    requires AllBytes(s) && |s| == 2
    ensures Decode(Blocks(s)) == s
  {
    hide Decode, Lookup, Index;
    DecodeNothing();
    ThreeQuarters(s[0], s[1]);
    var x := s[0] as int % 4 * 16 + s[1] as int / 16;
    DecodeCons(Lookup(s[0] as int / 4), Lookup(x), Lookup(s[1] as int % 16 * 4), '=', "");
    assert Blocks(s) == [Lookup(s[0] as int / 4), Lookup(x), Lookup(s[1] as int % 16 * 4), '='] + "";
  }

  /** What `base64_encode` puts out: whole blocks of four, from which a decoder recovers the input. */
  lemma EncodeDecodes(s: string)
    requires AllBytes(s)
    ensures |Unbounded(s)| == 4 * ((|s| + 2) / 3) && Decode(Unbounded(s)) == s
  {
    UnboundedIsBlocks(s);
    DecodeBlocks(s);
  }
}
