/** Byte strings and first-occurrence search, shared by every parser and printer of the model.
    A `string` stands for a C++ std::string: one character per byte. */
module Bytes {

  const CRLF := "\r\n"

  /** `CPPHTTPLIB_HEADER_MAX_LENGTH`. */
  const HEADER_MAX_LENGTH := 8192

  /** `p` occurs in `s` at index `i`. */
  predicate At(s: string, p: string, i: int) {
    0 <= i && i + |p| <= |s| && s[i..i + |p|] == p
  }

  /** `p` occurs somewhere in `s`. */
  ghost predicate Contains(s: string, p: string) {
    exists i :: At(s, p, i)
  }

  /** The least index, from `from` on, at which `p` occurs; `|s|` when there is none. */
  function FindFrom(s: string, p: string, from: nat): (r: nat)
    requires from <= |s| && p != ""
    ensures from <= r <= |s|
    ensures r < |s| ==> At(s, p, r)
    ensures forall i :: from <= i < r ==> !At(s, p, i)
    decreases |s| - from
  {
    if from == |s| || At(s, p, from) then from else FindFrom(s, p, from + 1)
  }

  function Find(s: string, p: string): (r: nat)
    requires p != ""
    ensures r <= |s|
    ensures r < |s| ==> At(s, p, r)
    ensures forall i :: 0 <= i < r ==> !At(s, p, i)
  {
    FindFrom(s, p, 0)
  }

  /** First occurrence is determined by what it promises. */
  lemma FindIs(s: string, p: string, r: nat)
    requires p != "" && r <= |s|
    requires r < |s| ==> At(s, p, r)
    requires forall i :: 0 <= i < r ==> !At(s, p, i)
    ensures Find(s, p) == r
  {
  }

  /** An occurrence inside a prefix is an occurrence of the whole, and conversely when it ends in the prefix. */
  lemma AtPrefix(s: string, t: string, p: string, i: int)
    requires i + |p| <= |s|
    ensures At(s, p, i) <==> At(s + t, p, i)
  {
    if 0 <= i {
      assert (s + t)[i..i + |p|] == s[i..i + |p|];
    }
  }

  lemma AtSuffix(s: string, t: string, p: string, i: nat)
    ensures At(t, p, i) <==> At(s + t, p, |s| + i)
  {
    if i + |p| <= |t| {
      assert (s + t)[|s| + i..|s| + i + |p|] == t[i..i + |p|];
    }
  }

  /** A found first occurrence stays first when more bytes arrive. */
  lemma FindGrows(s: string, t: string, p: string)
    requires p != "" && Find(s, p) < |s|
    ensures Find(s + t, p) == Find(s, p)
  {
    var r := Find(s, p);
    forall i | 0 <= i <= r ensures At(s, p, i) <==> At(s + t, p, i) { AtPrefix(s, t, p, i); }
    FindIs(s + t, p, r);
  }

  /** Dropping a prefix in which no occurrence starts shifts the first occurrence. */
  lemma FindDrop(s: string, p: string, k: nat)
    requires p != "" && k <= |s|
    requires forall i :: 0 <= i < k ==> !At(s, p, i)
    ensures Find(s, p) == k + Find(s[k..], p)
  {
    var r := Find(s[k..], p);
    assert s == s[..k] + s[k..];
    forall i: nat ensures At(s[k..], p, i) <==> At(s, p, k + i) { AtSuffix(s[..k], s[k..], p, i); }
    forall i | 0 <= i < k + r ensures !At(s, p, i) {
      if k <= i { assert !At(s[k..], p, i - k); }
    }
    FindIs(s, p, k + r);
  }

  /** What a printer needs: the text before a separator hides no occurrence of it that starts earlier. */
  lemma FindAfter(s: string, p: string, t: string)
    requires p != ""
    requires forall i :: 0 <= i < |s| ==> !At(s + p + t, p, i)
    ensures Find(s + p + t, p) == |s|
  {
    assert (s + p + t)[|s|..|s| + |p|] == p;
    FindIs(s + p + t, p, |s|);
  }

  /** A separator whose first byte never recurs in it cannot overlap itself, so an occurrence that
      starts in `s` lies inside `s`. */
  lemma NoOverlap(s: string, p: string, t: string)
    requires p != "" && p[0] !in p[1..]
    requires forall i :: !At(s, p, i)
    ensures forall i :: 0 <= i < |s| ==> !At(s + p + t, p, i)
  {
    forall i | 0 <= i < |s| ensures !At(s + p + t, p, i) {
      AtInside(s, p, t, i);
    }
  }

  lemma AtInside(s: string, p: string, t: string, i: nat)
    requires p != "" && p[0] !in p[1..]
    requires i < |s|
    ensures At(s + p + t, p, i) ==> At(s, p, i)
  {
    var w := s + p + t;
    var k := |s| - i;
    if i + |p| <= |s| {
      assert w[i..i + |p|] == s[i..i + |p|];
    } else if i + |p| <= |w| {
      assert w[i..i + |p|][k] == w[|s|] == p[0];
      assert p[k] == p[1..][k - 1];
    }
  }

  lemma Assoc(a: string, b: string, c: string)
    ensures a + b + c == a + (b + c)
  {
  }

  /** The pieces one after another. */
  function Join(pieces: seq<string>): string {
    if pieces == [] then "" else Join(pieces[..|pieces| - 1]) + pieces[|pieces| - 1]
  }

  lemma {:induction false} JoinSnoc(pieces: seq<string>, last: string)
    ensures Join(pieces + [last]) == Join(pieces) + last
  {
    assert (pieces + [last])[..|pieces|] == pieces;
  }

  lemma {:induction false} JoinCons(pieces: seq<string>)
    requires pieces != []
    ensures Join(pieces) == pieces[0] + Join(pieces[1..])
  {
    var n := |pieces| - 1;
    if n == 0 {
      assert pieces[..0] == [] && pieces[1..] == [];
    } else {
      JoinCons(pieces[..n]);
      assert pieces[1..][..n - 1] == pieces[..n][1..];
      Assoc(pieces[0], Join(pieces[..n][1..]), pieces[n]);
    }
  }
}
