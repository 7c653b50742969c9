/** `std::multimap<std::string, std::string>` as the sequence an iteration gives: sorted by key, equal
    keys in the order they were inserted. `fold` picks the case-blind order `ci` of the header maps. */
module Multimap {
  import opened Text

  type Multimap = seq<(string, string)>

  function Rank(c: char, fold: bool): int { if fold then ToLower(c) as int else c as int }

  /** Lexicographic order. */
  predicate Less(a: string, b: string, fold: bool) {
    b != "" && (a == "" || Rank(a[0], fold) < Rank(b[0], fold) ||
                (Rank(a[0], fold) == Rank(b[0], fold) && Less(a[1..], b[1..], fold)))
  }

  predicate Sorted(m: Multimap, fold: bool) {
    forall i, j :: 0 <= i < j < |m| ==> !Less(m[j].0, m[i].0, fold)
  }

  /** `emplace`: before the first entry with a greater key. */
  function Emplace(m: Multimap, entry: (string, string), fold: bool): Multimap {
    if m == [] || Less(entry.0, m[0].0, fold) then [entry] + m
    else [m[0]] + Emplace(m[1..], entry, fold)
  }

  lemma {:induction false} EmplaceLast(m: Multimap, entry: (string, string), fold: bool)
    requires forall i :: 0 <= i < |m| ==> !Less(entry.0, m[i].0, fold)
    ensures Emplace(m, entry, fold) == m + [entry]
  {
    if m != [] {
      EmplaceLast(m[1..], entry, fold);
      assert m == [m[0]] + m[1..];
    }
  }

  lemma {:induction false} NotLessTransitive(a: string, b: string, c: string, fold: bool)
    requires !Less(b, a, fold) && !Less(c, b, fold)
    ensures !Less(c, a, fold)
  {
    if a != "" && b != "" && c != "" && Rank(a[0], fold) == Rank(b[0], fold) == Rank(c[0], fold) {
      NotLessTransitive(a[1..], b[1..], c[1..], fold);
    }
  }

  lemma {:induction false} LessAsymmetric(a: string, b: string, fold: bool)
    requires Less(a, b, fold)
    ensures !Less(b, a, fold)
  {
    if a != "" && Rank(a[0], fold) == Rank(b[0], fold) { LessAsymmetric(a[1..], b[1..], fold); }
  }

  lemma {:induction false} EmplaceMembers(m: Multimap, entry: (string, string), fold: bool)
    ensures multiset(Emplace(m, entry, fold)) == multiset(m) + multiset{entry}
  {
    if m == [] || Less(entry.0, m[0].0, fold) {
    } else {
      EmplaceMembers(m[1..], entry, fold);
      assert m == [m[0]] + m[1..];
    }
  }

  /** Inserting keeps the map sorted and adds exactly the entry. */
  lemma {:induction false} EmplaceSorted(m: Multimap, entry: (string, string), fold: bool)
    requires Sorted(m, fold)
    ensures Sorted(Emplace(m, entry, fold), fold)
    ensures multiset(Emplace(m, entry, fold)) == multiset(m) + multiset{entry}
  {
    EmplaceMembers(m, entry, fold);
    if m == [] {
    } else if Less(entry.0, m[0].0, fold) {
      LessAsymmetric(entry.0, m[0].0, fold);
      forall j | 0 < j < |m| ensures !Less(m[j].0, entry.0, fold) {
        NotLessTransitive(entry.0, m[0].0, m[j].0, fold);
      }
    } else {
      var later := Emplace(m[1..], entry, fold);
      EmplaceSorted(m[1..], entry, fold);
      forall j | 0 <= j < |later| ensures !Less(later[j].0, m[0].0, fold) {
        assert later[j] in multiset(m[1..]) + multiset{entry};
        if later[j] != entry {
          var k :| 0 <= k < |m[1..]| && m[1..][k] == later[j];
          assert m[k + 1] == later[j];
        }
      }
    }
  }

  // ---- What the order is ------------------------------------------------------------------------

  predicate SameUpTo(a: string, b: string, k: nat, fold: bool) {
    k <= |a| && k <= |b| && forall i :: 0 <= i < k ==> Rank(a[i], fold) == Rank(b[i], fold)
  }

  predicate SameKey(a: string, b: string, fold: bool) { |a| == |b| && SameUpTo(a, b, |a|, fold) }

  /** `a` ends at `k`, or has a smaller byte there, and nothing tells them apart before. */
  predicate SmallerAt(a: string, b: string, k: nat, fold: bool) {
    SameUpTo(a, b, k, fold) && k < |b| && (k == |a| || Rank(a[k], fold) < Rank(b[k], fold))
  }

  lemma SameCons(a: string, b: string, k: nat, fold: bool)
    requires a != "" && b != "" && k > 0
    ensures SameUpTo(a, b, k, fold) <==> Rank(a[0], fold) == Rank(b[0], fold) && SameUpTo(a[1..], b[1..], k - 1, fold)
  {
    if SameUpTo(a[1..], b[1..], k - 1, fold) && Rank(a[0], fold) == Rank(b[0], fold) {
      forall i | 0 <= i < k ensures Rank(a[i], fold) == Rank(b[i], fold) {
        if i > 0 { assert a[i] == a[1..][i - 1] && b[i] == b[1..][i - 1]; }
      }
    }
  }

  /** One key comes before another exactly when it is smaller at their first difference. */
  lemma {:induction false} LessIs(a: string, b: string, fold: bool)
    ensures Less(a, b, fold) <==> exists k: nat :: SmallerAt(a, b, k, fold)
  {
    if b == "" {
    } else if a == "" {
      assert SmallerAt(a, b, 0, fold);
    } else if Rank(a[0], fold) < Rank(b[0], fold) {
      assert SmallerAt(a, b, 0, fold);
    } else {
      LessIs(a[1..], b[1..], fold);
      forall k: nat | k > 0 ensures SmallerAt(a, b, k, fold) <==>
        Rank(a[0], fold) == Rank(b[0], fold) && SmallerAt(a[1..], b[1..], k - 1, fold)
      {
        SameCons(a, b, k, fold);
      }
      if Less(a, b, fold) {
        var k: nat :| SmallerAt(a[1..], b[1..], k, fold);
        assert SmallerAt(a, b, k + 1, fold);
      }
      if k: nat :| SmallerAt(a, b, k, fold) {
        assert k > 0 && SmallerAt(a[1..], b[1..], k - 1, fold);
      }
    }
  }

  /** Keys of which neither comes first are the same, but for the case of letters in the case-blind order. */
  lemma {:induction false} SameKeyIs(a: string, b: string, fold: bool)
    ensures SameKey(a, b, fold) <==> !Less(a, b, fold) && !Less(b, a, fold)
  {
    if a != "" && b != "" {
      SameKeyIs(a[1..], b[1..], fold);
      SameCons(a, b, |a|, fold);
    }
  }

  /** Keys are the same in the case-blind order when they differ in the case of letters only. */
  lemma CaseBlind(a: string, b: string)
    ensures SameKey(a, b, true) <==> |a| == |b| && forall i :: 0 <= i < |a| ==> SameLetter(a[i], b[i])
    ensures SameKey(a, b, false) <==> a == b
  {
    hide ToLower, SameLetter;
    if |a| == |b| {
      forall i | 0 <= i < |a| ensures ToLower(a[i]) == ToLower(b[i]) <==> SameLetter(a[i], b[i]) {
        LowerIsSameLetter(a[i], b[i]);
      }
    }
  }

  /** The values of one key, in the order of an iteration. */
  function ValuesOf(m: Multimap, key: string, fold: bool): seq<string> {
    if m == [] then []
    else (if SameKey(m[0].0, key, fold) then [m[0].1] else []) + ValuesOf(m[1..], key, fold)
  }

  lemma SameKeyLess(a: string, b: string, c: string, fold: bool)
    requires SameKey(a, b, fold)
    ensures Less(a, c, fold) == Less(b, c, fold) && Less(c, a, fold) == Less(c, b, fold)
  {
    SameKeyIs(a, b, fold);
    if Less(a, c, fold) && !Less(b, c, fold) { NotLessTransitive(c, b, a, fold); }
    if !Less(a, c, fold) && Less(b, c, fold) { NotLessTransitive(c, a, b, fold); }
    if Less(c, a, fold) && !Less(c, b, fold) { NotLessTransitive(a, b, c, fold); }
    if !Less(c, a, fold) && Less(c, b, fold) { NotLessTransitive(b, a, c, fold); }
  }

  lemma {:induction false} NoneSame(m: Multimap, key: string, fold: bool)
    requires forall i :: 0 <= i < |m| ==> !SameKey(m[i].0, key, fold)
    ensures ValuesOf(m, key, fold) == []
  {
    if m != [] { NoneSame(m[1..], key, fold); }
  }

  lemma {:induction false} InsertedValues(m: Multimap, entry: (string, string), key: string, fold: bool)
    requires m != [] && Sorted(m, fold) && Less(entry.0, m[0].0, fold)
    ensures ValuesOf([entry] + m, key, fold) ==
            ValuesOf(m, key, fold) + (if SameKey(entry.0, key, fold) then [entry.1] else [])
  {
    hide SameKey, Less, Sorted;
    ValuesCons(entry, m, key, fold);
    if SameKey(entry.0, key, fold) {
      SameKeyLess(entry.0, key, m[0].0, fold);
      forall i | 0 <= i < |m| ensures !SameKey(m[i].0, key, fold) { LaterKeys(m, i, key, fold); }
      NoneSame(m, key, fold);
    }
  }

  lemma ValuesCons(first: (string, string), later: Multimap, key: string, fold: bool)
    ensures ValuesOf([first] + later, key, fold) ==
            (if SameKey(first.0, key, fold) then [first.1] else []) + ValuesOf(later, key, fold)
  {
    hide SameKey;
    assert ([first] + later)[1..] == later;
  }

  /** A new value comes after those its key already has, and no other key's values change. */
  lemma {:induction false} EmplaceValues(m: Multimap, entry: (string, string), key: string, fold: bool)
    requires Sorted(m, fold)
    ensures ValuesOf(Emplace(m, entry, fold), key, fold) ==
            ValuesOf(m, key, fold) + (if SameKey(entry.0, key, fold) then [entry.1] else [])
  {
    hide SameKey, Less, ValuesOf;
    if m == [] {
      ValuesCons(entry, m, key, fold);
      NoneSame(m, key, fold);
    } else if Less(entry.0, m[0].0, fold) {
      InsertedValues(m, entry, key, fold);
    } else {
      assert Sorted(m[1..], fold);
      hide Sorted;
      EmplaceValues(m[1..], entry, key, fold);
      assert m == [m[0]] + m[1..];
      ValuesCons(m[0], m[1..], key, fold);
      ValuesCons(m[0], Emplace(m[1..], entry, fold), key, fold);
    }
  }

  lemma LaterKeys(m: Multimap, i: nat, key: string, fold: bool)
    requires Sorted(m, fold) && i < |m| && Less(key, m[0].0, fold)
    ensures !SameKey(m[i].0, key, fold)
  {
    hide SameKey, Less;
    if SameKey(m[i].0, key, fold) {
      SameKeyLess(m[i].0, key, m[0].0, fold);
      if i == 0 { SameKeyIs(m[0].0, m[0].0, fold); LessAsymmetric(m[0].0, m[0].0, fold); }
    }
  }

  // ---- Inserting many -------------------------------------------------------------------------

  function EmplaceAll(m: Multimap, entries: Multimap, fold: bool): Multimap
    decreases |entries|
  {
    if entries == [] then m else EmplaceAll(Emplace(m, entries[0], fold), entries[1..], fold)
  }

  lemma {:induction false} EmplaceCons(m: Multimap, front: Multimap, more: Multimap, fold: bool)
    requires |front| <= 1
    ensures EmplaceAll(m, front + more, fold) ==
            EmplaceAll(if front == [] then m else Emplace(m, front[0], fold), more, fold)
  {
    if front == [] {
      assert front + more == more;
    } else {
      assert (front + more)[1..] == more;
    }
  }

  /** Inserting one after another keeps the multimap sorted; each key has the values it had and then the
      new ones, in order. */
  lemma {:induction false} EmplaceAllIs(m: Multimap, entries: Multimap, key: string, fold: bool)
    requires Sorted(m, fold)
    ensures Sorted(EmplaceAll(m, entries, fold), fold)
    ensures ValuesOf(EmplaceAll(m, entries, fold), key, fold) == ValuesOf(m, key, fold) + ValuesOf(entries, key, fold)
    decreases |entries|
  {
    hide Sorted, Emplace, SameKey, ValuesOf;
    if entries == [] {
      NoneSame(entries, key, fold);
    } else {
      assert entries == [entries[0]] + entries[1..];
      ValuesCons(entries[0], entries[1..], key, fold);
      EmplaceSorted(m, entries[0], fold);
      EmplaceValues(m, entries[0], key, fold);
      EmplaceAllIs(Emplace(m, entries[0], fold), entries[1..], key, fold);
    }
  }

  lemma {:induction false} EmplaceSortedAll(before: Multimap, entries: Multimap, fold: bool)
    requires Sorted(before + entries, fold)
    ensures EmplaceAll(before, entries, fold) == before + entries
    decreases |entries|
  {
    if entries == [] {
      assert before + entries == before;
    } else {
      EmplaceNext(before, entries, fold);
      EmplaceSortedAll(before + [entries[0]], entries[1..], fold);
    }
  }

  lemma {:induction false} EmplaceNext(before: Multimap, entries: Multimap, fold: bool)
    requires entries != [] && Sorted(before + entries, fold)
    ensures Emplace(before, entries[0], fold) == before + [entries[0]]
    ensures before + [entries[0]] + entries[1..] == before + entries
  {
    var all := before + entries;
    assert all[|before|] == entries[0];
    forall i | 0 <= i < |before| ensures !Less(entries[0].0, before[i].0, fold) { assert all[i] == before[i]; }
    EmplaceLast(before, entries[0], fold);
  }
}
