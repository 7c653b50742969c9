/** `is_valid_path`: the test that a request path stays below the directory it is mounted on. */
module PathCheck {
  import opened Text

  /** The index of the first byte from `from` on that is a slash, or is not one; `|path|` when there is none. */
  function Skip(path: string, from: nat, slashes: bool): (i: nat)
    requires from <= |path|
    ensures from <= i <= |path|
    ensures forall k :: from <= k < i ==> (path[k] == '/') == slashes
    ensures i < |path| ==> (path[i] == '/') != slashes
    decreases |path| - from
  {
    if from < |path| && (path[from] == '/') == slashes then Skip(path, from + 1, slashes) else from
  }

  /** The non-empty pieces of `path` between slashes, from index `from` on, in order. */
  function ComponentsFrom(path: string, from: nat): (cs: seq<string>)
    requires from <= |path|
    ensures forall c :: c in cs ==> c != "" && '/' !in c
    decreases |path| - from
  {
    var beg := Skip(path, from, true);
    if beg == |path| then []
    else
      var end := Skip(path, beg, false);
      [path[beg..end]] + ComponentsFrom(path, end)
  }

  function Components(path: string): seq<string> { ComponentsFrom(path, 0) }

  /** What one component does to the depth. */
  function Rise(c: string): int { if c == "." then 0 else if c == ".." then -1 else 1 }

  /** Ordinary names minus `..` among `cs`. */
  function Depth(cs: seq<string>): int {
    if cs == [] then 0 else Depth(cs[..|cs| - 1]) + Rise(cs[|cs| - 1])
  }

  /** No prefix has more `..` than ordinary names. */
  ghost predicate NeverRisesAbove(cs: seq<string>) {
    forall k :: 0 <= k <= |cs| ==> Depth(cs[..k]) >= 0
  }

  lemma {:induction false} SkipTwice(path: string, from: nat, mid: nat, slashes: bool)
    requires from <= |path| && from <= mid <= Skip(path, from, slashes)
    ensures Skip(path, mid, slashes) == Skip(path, from, slashes)
    decreases mid - from
  {
    if from < mid { SkipTwice(path, from + 1, mid, slashes); }
  }

  /** Leading slashes do not change the components. */
  lemma {:induction false} LeadingSlashes(path: string, from: nat)
    requires from <= |path|
    ensures ComponentsFrom(path, from) == ComponentsFrom(path, Skip(path, from, true))
  {
    SkipTwice(path, from, Skip(path, from, true), true);
  }

  lemma {:induction false} OneComponent(path: string, beg: nat, end: nat)
    requires beg < |path| && path[beg] != '/' && end == Skip(path, beg, false)
    ensures beg < end && ComponentsFrom(path, beg) == [path[beg..end]] + ComponentsFrom(path, end)
  {
  }

  lemma {:induction false} NoneLeft(path: string)
    ensures ComponentsFrom(path, |path|) == []
  {
  }

  lemma Empty()
    ensures NeverRisesAbove([]) && Depth([]) == 0
  {
  }

  /** A good prefix with one more component. */
  lemma {:induction false} Extend(done: seq<string>, c: string)
    requires NeverRisesAbove(done)
    ensures Depth(done + [c]) == Depth(done) + Rise(c)
    ensures NeverRisesAbove(done + [c]) <==> Depth(done) + Rise(c) >= 0
  {
    var more := done + [c];
    assert more[..|done|] == done && more[..|more|] == more && done[..|done|] == done;
    assert forall k :: 0 <= k <= |done| ==> more[..k] == done[..k];
  }

  /** A prefix that has gone too far is not repaired by what follows. */
  lemma PrefixDecides(done: seq<string>, rest: seq<string>)
    requires !NeverRisesAbove(done)
    ensures !NeverRisesAbove(done + rest)
  {
    var k :| 0 <= k <= |done| && Depth(done[..k]) < 0;
    assert (done + rest)[..k] == done[..k];
  }

  method SkipSlashes(path: string, from: nat) returns (i: nat)
    requires from <= |path|
    ensures i == Skip(path, from, true)
  {
    i := from;
    while i < |path| && path[i] == '/'
      invariant from <= i <= |path| && Skip(path, from, true) == Skip(path, i, true)
    {
      i := i + 1;
    }
  }

  method IsValidPath(path: string) returns (valid: bool)
    ensures valid <==> NeverRisesAbove(Components(path))
  {
    hide NeverRisesAbove, Depth, ComponentsFrom;
    var level: nat := 0;
    var i := SkipSlashes(path, 0);
    ghost var done: seq<string> := [];
    LeadingSlashes(path, 0);
    Empty();
    while i < |path|
      invariant i <= |path| && (i < |path| ==> path[i] != '/')
      invariant Components(path) == done + ComponentsFrom(path, i)
      invariant NeverRisesAbove(done) && Depth(done) == level
      decreases |path| - i
    {
      var beg := i;
      while i < |path| && path[i] != '/'
        invariant beg <= i <= |path| && Skip(path, beg, false) == Skip(path, i, false)
      {
        i := i + 1;
      }
      assert i - beg > 0;
      OneComponent(path, beg, i);
      var c := path[beg..i];
      Extend(done, c);
      ghost var more := done + [c];
      assert Components(path) == more + ComponentsFrom(path, i);
      if c == "." {
      } else if c == ".." {
        if level == 0 {
          PrefixDecides(more, ComponentsFrom(path, i));
          return false;
        }
        level := level - 1;
      } else {
        level := level + 1;
      }
      done := more;
      LeadingSlashes(path, i);
      i := SkipSlashes(path, i);
    }
    NoneLeft(path);
    assert Components(path) == done;
    return true;
  }

  function NonEmpty(fields: seq<string>): seq<string> {
    if fields == [] then []
    else (if fields[0] == "" then [] else [fields[0]]) + NonEmpty(fields[1..])
  }

  lemma {:induction false} SlashNext(path: string, from: nat)
    requires from < |path| && path[from] == '/'
    ensures ComponentsFrom(path, from) == ComponentsFrom(path, from + 1)
  {
    hide ComponentsFrom;
    LeadingSlashes(path, from);
    SkipTwice(path, from, from + 1, true);
    LeadingSlashes(path, from + 1);
  }

  lemma FieldNext(path: string, from: nat, end: nat)
    requires from <= end < |path| && path[end] == '/' && '/' !in path[from..end]
    ensures NonEmpty(Fields(path[from..], '/')) ==
            (if from == end then [] else [path[from..end]]) + NonEmpty(Fields(path[end + 1..], '/'))
  {
    hide Fields;
    var c := path[from..end];
    assert path[from..] == c + ['/'] + path[end + 1..];
    FieldsCons(c, path[end + 1..], '/');
    FirstField(c, path[end + 1..]);
  }

  lemma FieldLast(path: string, from: nat)
    requires from <= |path| && '/' !in path[from..]
    ensures NonEmpty(Fields(path[from..], '/')) == if from == |path| then [] else [path[from..]]
  {
    FieldsOne(path[from..], '/');
    assert [path[from..]][1..] == [];
  }

  /** The components are the fields between slashes that are not empty. */
  lemma {:induction false} ComponentsAre(path: string, from: nat)
    requires from <= |path|
    ensures ComponentsFrom(path, from) == NonEmpty(Fields(path[from..], '/'))
    decreases |path| - from
  {
    hide ComponentsFrom, Fields, NonEmpty;
    if from == |path| {
      NoneLeft(path);
      FieldLast(path, from);
    } else if path[from] == '/' {
      SlashNext(path, from);
      ComponentsAre(path, from + 1);
      FieldNext(path, from, from);
    } else {
      var end := Skip(path, from, false);
      OneComponent(path, from, end);
      assert '/' !in path[from..end];
      if end == |path| {
        NoneLeft(path);
        assert path[from..] == path[from..end];
        FieldLast(path, from);
      } else {
        SlashNext(path, end);
        ComponentsAre(path, end + 1);
        FieldNext(path, from, end);
      }
    }
  }

  lemma FirstField(c: string, rest: string)
    ensures NonEmpty([c] + Fields(rest, '/')) == (if c == "" then [] else [c]) + NonEmpty(Fields(rest, '/'))
  {
    hide Fields;
    assert ([c] + Fields(rest, '/'))[1..] == Fields(rest, '/');
  }

  // ---- What the test is for -------------------------------------------------------------------

  /** Walking one component from a directory, given as the names on the way to it. */
  function Walk(dir: seq<string>, c: string): seq<string> {
    if c == "." then dir
    else if c == ".." then (if dir == [] then [] else dir[..|dir| - 1])
    else dir + [c]
  }

  function WalkAll(dir: seq<string>, cs: seq<string>): seq<string> {
    if cs == [] then dir else Walk(WalkAll(dir, cs[..|cs| - 1]), cs[|cs| - 1])
  }

  /** The walk along `cs` never leaves the directory `mount`, at no point on the way. */
  ghost predicate StaysBelow(mount: seq<string>, cs: seq<string>) {
    forall k :: 0 <= k <= |cs| ==> mount <= WalkAll(mount, cs[..k])
  }

  lemma {:induction false} WalkBelow(mount: seq<string>, cs: seq<string>)
    requires NeverRisesAbove(cs)
    ensures mount <= WalkAll(mount, cs) && |WalkAll(mount, cs)| == |mount| + Depth(cs)
    decreases |cs|
  {
    if cs != [] {
      var before := cs[..|cs| - 1];
      assert forall k :: 0 <= k <= |before| ==> before[..k] == cs[..k];
      assert cs[..|cs|] == cs;
      assert Depth(cs[..|cs|]) >= 0;
      WalkBelow(mount, before);
    }
  }

  /** Paths that pass the test are exactly those that stay below any mount point other than the root. */
  lemma ValidMeansContained(mount: seq<string>, cs: seq<string>)
    requires mount != []
    ensures NeverRisesAbove(cs) <==> StaysBelow(mount, cs)
  {
    if NeverRisesAbove(cs) {
      forall k | 0 <= k <= |cs| ensures mount <= WalkAll(mount, cs[..k]) {
        assert forall j :: 0 <= j <= k ==> cs[..k][..j] == cs[..j];
        WalkBelow(mount, cs[..k]);
      }
    } else {
      EscapeSeen(mount, cs);
    }
  }

  /** At the first prefix that goes too deep in `..` the walk has just left the mount point. */
  lemma {:induction false} EscapeSeen(mount: seq<string>, cs: seq<string>)
    requires mount != [] && !NeverRisesAbove(cs)
    ensures !StaysBelow(mount, cs)
    decreases |cs|
  {
    Empty();
    if cs != [] {
      var before, c := cs[..|cs| - 1], cs[|cs| - 1];
      assert before + [c] == cs;
      assert forall k :: 0 <= k <= |before| ==> before[..k] == cs[..k];
      if NeverRisesAbove(before) {
        Extend(before, c);
        WalkBelow(mount, before);
        assert before[..|before|] == before && cs[..|cs|] == cs;
        assert Depth(before) == 0 && c == "..";
        assert WalkAll(mount, before) == mount;
        assert !(mount <= WalkAll(mount, cs[..|cs|]));
      } else {
        EscapeSeen(mount, before);
        var k :| 0 <= k <= |before| && !(mount <= WalkAll(mount, before[..k]));
        assert !(mount <= WalkAll(mount, cs[..k]));
      }
    }
  }
}
