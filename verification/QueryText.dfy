/** Query strings: `params_to_query_str` and `parse_query_text`. */
module QueryText {
  import opened Text
  import opened PercentCoding
  import opened Multimap

  type Params = Multimap

  function PairText(p: (string, string)): string
    requires AllBytes(p.1)
  {
    p.0 + "=" + EncodeQueryParam(p.1)
  }

  predicate ByteValues(params: Params) { forall i :: 0 <= i < |params| ==> AllBytes(params[i].1) }

  function PairTexts(params: Params): seq<string>
    requires ByteValues(params)
  {
    if params == [] then [] else [PairText(params[0])] + PairTexts(params[1..])
  }

  /** Pairs joined by ampersands. */
  function QueryStr(params: Params): string
    requires ByteValues(params)
  {
    if params == [] then ""
    else if |params| == 1 then PairText(params[0])
    else PairText(params[0]) + "&" + QueryStr(params[1..])
  }

  function Separator(first: bool): string { if first then "" else "&" }

  lemma QueryStrStep(params: Params, i: nat, query: string)
    requires ByteValues(params) && i < |params|
    ensures query + Separator(i == 0) + QueryStr(params[i..]) ==
            query + Separator(i == 0) + PairText(params[i]) + Separator(i + 1 == |params|) + QueryStr(params[i + 1..])
  {
    assert params[i..][1..] == params[i + 1..];
    var q := query + Separator(i == 0);
    if i + 1 < |params| {
      assert q + (PairText(params[i]) + "&" + QueryStr(params[i + 1..])) ==
             q + PairText(params[i]) + "&" + QueryStr(params[i + 1..]);
    }
  }

  lemma PairAppended(p: (string, string), query: string)
    requires AllBytes(p.1)
    ensures query + p.0 + "=" + EncodeQueryParam(p.1) == query + PairText(p)
  {
    hide EncodeQueryParam;
  }

  lemma NoQueryStr()
    ensures QueryStr([]) == ""
  {
  }

  /** The iteration of `params_to_query_str`. */
  method ParamsToQueryStr(params: Params) returns (query: string)
    requires ByteValues(params)
    ensures query == QueryStr(params)
  {
    hide EncodeQueryParam, QueryStr, PairText;
    query := "";
    assert params[0..] == params;
    for i := 0 to |params|
      invariant QueryStr(params) == query + Separator(i == 0 || i == |params|) + QueryStr(params[i..])
    {
      QueryStrStep(params, i, query);
      if i != 0 { query := query + "&"; }
      var value := EncodeQueryParamLoop(params[i].1);
      PairAppended(params[i], query);
      query := query + params[i].0;
      query := query + "=";
      query := query + value;
    }
    NoQueryStr();
    assert params[|params|..] == [];
  }

  // ---- Parsing --------------------------------------------------------------------------------

  /** The first piece is the key; each later one overwrites the value. */
  function ParsePair(text: string): Option<(string, string)> {
    var pieces := Pieces(text, '=');
    if pieces == [] then None
    else Some((DecodeUrl(pieces[0], true), if |pieces| == 1 then "" else DecodeUrl(pieces[|pieces| - 1], true)))
  }

  function ParsePieces(pieces: seq<string>, seen: set<string>, params: Params): Params {
    if pieces == [] then params
    else if pieces[0] in seen then ParsePieces(pieces[1..], seen, params)
    else
      var pair := ParsePair(pieces[0]);
      ParsePieces(pieces[1..], seen + {pieces[0]},
                  if pair.None? then params else Emplace(params, pair.value, false))
  }

  function ParseQuery(s: string): Params { ParsePieces(Pieces(s, '&'), {}, []) }

  /** The assignments of the inner callback. */
  method KeyAndValue(pieces: seq<string>) returns (key: string, val: string)
    requires forall i :: 0 <= i < |pieces| ==> pieces[i] != ""
    ensures key == (if pieces == [] then "" else pieces[0])
    ensures val == (if |pieces| <= 1 then "" else pieces[|pieces| - 1])
  {
    key, val := "", "";
    for i := 0 to |pieces|
      invariant key == (if i == 0 then "" else pieces[0])
      invariant val == (if i <= 1 then "" else pieces[i - 1])
    {
      if key == "" { key := pieces[i]; } else { val := pieces[i]; }
    }
  }

  method ParsePairLoop(text: string) returns (pair: Option<(string, string)>)
    ensures pair == ParsePair(text)
  {
    var pieces := Split(text, '=');
    PiecesNonEmpty(text, '=');
    forall i | 0 <= i < |pieces| ensures pieces[i] != "" { assert pieces[i] in pieces; }
    var key, val := KeyAndValue(pieces);
    if key == "" { return None; }
    var k := DecodeUrlLoop(key, true);
    var v := DecodeUrlLoop(val, true);
    return Some((k, v));
  }

  lemma {:induction false} KeptNonEmpty(fields: seq<string>)
    ensures forall p :: p in Kept(fields) ==> p != ""
  {
    if fields != [] { KeptNonEmpty(fields[1..]); }
  }

  lemma PiecesNonEmpty(text: string, d: char)
    ensures forall p :: p in Pieces(text, d) ==> p != ""
  {
    KeptNonEmpty(Fields(text, d));
  }

  method ParseQueryText(s: string) returns (params: Params)
    ensures params == ParseQuery(s)
  {
    var pieces := Split(s, '&');
    var cache: set<string> := {};
    params := [];
    assert pieces[0..] == pieces;
    for i := 0 to |pieces|
      invariant ParsePieces(pieces, {}, []) == ParsePieces(pieces[i..], cache, params)
    {
      assert pieces[i..][1..] == pieces[i + 1..];
      if pieces[i] !in cache {
        cache := cache + {pieces[i]};
        var pair := ParsePairLoop(pieces[i]);
        if pair.Some? { params := Emplace(params, pair.value, false); }
      }
    }
  }

  // ---- Round trip -------------------------------------------------------------------------------

  predicate KeyOk(key: string) {
    && key != "" && !IsBlank(key[0]) && !IsBlank(key[|key| - 1])
    && '&' !in key && '=' !in key && '%' !in key && '+' !in key
  }

  /** A multimap of bytes whose keys need no escaping, which the printer does not give them. */
  predicate Sendable(params: Params) {
    Sorted(params, false) && ByteValues(params) && forall i :: 0 <= i < |params| ==> KeyOk(params[i].0)
  }

  lemma {:induction false} EncodedQueryIsPlain(s: string)
    requires AllBytes(s)
    ensures forall i :: 0 <= i < |EncodeQueryParam(s)| ==> QueryPlain(EncodeQueryParam(s)[i])
  {
    if s != "" { EncodedQueryIsPlain(s[1..]); }
  }

  predicate QueryPlain(c: char) { c != '&' && c != '=' && !IsBlank(c) && c != '+' }

  lemma {:induction false} DecodePlain(s: string)
    requires '%' !in s && '+' !in s
    ensures DecodeUrl(s, true) == s
  {
    if s != "" {
      DecodePlain(s[1..]);
      assert s == [s[0]] + s[1..];
    }
  }

  lemma PairPieces(key: string, enc: string)
    requires KeyOk(key) && forall i :: 0 <= i < |enc| ==> QueryPlain(enc[i])
    ensures Pieces(key + "=" + enc, '=') == [key] + (if enc == "" then [] else [enc])
  {
    var text := key + "=" + enc;
    assert text[0..] == text && text[0..|key|] == key && text[|key| + 1..] == enc;
    PiecesStep(text, 0, |key|, '=');
    PiecesLast(enc, '=');
    TrimmedKeeps(key);
    TrimmedKeeps(enc);
  }

  lemma PairRead(p: (string, string))
    requires KeyOk(p.0) && AllBytes(p.1)
    ensures ParsePair(PairText(p)) == Some(p)
  {
    var enc := EncodeQueryParam(p.1);
    EncodedQueryIsPlain(p.1);
    PairPieces(p.0, enc);
    DecodePlain(p.0);
    QueryParamRoundTrip(p.1, true);
  }

  lemma PairClean(p: (string, string))
    requires KeyOk(p.0) && AllBytes(p.1)
    ensures '&' !in PairText(p) && Trimmed(PairText(p)) == PairText(p) != ""
  {
    EncodedQueryIsPlain(p.1);
    TrimmedKeeps(PairText(p));
  }

  lemma {:induction false} QueryPieces(params: Params)
    requires Sendable(params)
    ensures Pieces(QueryStr(params), '&') == PairTexts(params)
    decreases |params|
  {
    if params == [] {
      assert Kept([""][1..]) == [];
    } else {
      PairClean(params[0]);
      var text := PairText(params[0]);
      if |params| == 1 {
        PiecesLast(text, '&');
        assert PairTexts(params[1..]) == [];
      } else {
        var rest := QueryStr(params[1..]);
        QueryPieces(params[1..]);
        FieldsCons(text, rest, '&');
        assert text + ['&'] + rest == QueryStr(params);
        assert ([text] + Fields(rest, '&'))[1..] == Fields(rest, '&');
      }
    }
  }

  /** Exact repeats of a pair dropped, first ones kept. */
  function Merged(params: Params, seen: set<(string, string)>): Params {
    if params == [] then []
    else if params[0] in seen then Merged(params[1..], seen)
    else [params[0]] + Merged(params[1..], seen + {params[0]})
  }

  /** Pieces that each denote the pair in their place, different pairs by different pieces. */
  predicate Denotes(pieces: seq<string>, pairs: Params) {
    |pieces| == |pairs| &&
    (forall i :: 0 <= i < |pieces| ==> ParsePair(pieces[i]) == Some(pairs[i])) &&
    (forall i, j :: 0 <= i < j < |pieces| ==> (pieces[i] == pieces[j] <==> pairs[i] == pairs[j]))
  }

  lemma {:induction false} PiecesParsed(
    pieces: seq<string>, pairs: Params, texts: set<string>, seen: set<(string, string)>, before: Params)
    requires Denotes(pieces, pairs)
    requires forall i :: 0 <= i < |pieces| ==> (pieces[i] in texts <==> pairs[i] in seen)
    ensures ParsePieces(pieces, texts, before) == EmplaceAll(before, Merged(pairs, seen), false)
    decreases |pieces|
  {
    hide ParsePair, Emplace;
    if pieces != [] {
      var piece, p, later := pieces[0], pairs[0], Merged(pairs[1..], seen + {pairs[0]});
      DenotesTail(pieces, pairs);
      if p in seen {
        PiecesParsed(pieces[1..], pairs[1..], texts, seen, before);
      } else {
        PiecesParsed(pieces[1..], pairs[1..], texts + {piece}, seen + {p}, Emplace(before, p, false));
        assert ([p] + later)[1..] == later;
      }
    }
  }

  lemma DenotesTail(pieces: seq<string>, pairs: Params)
    requires pieces != [] && Denotes(pieces, pairs)
    ensures Denotes(pieces[1..], pairs[1..])
    ensures forall i :: 0 <= i < |pieces| - 1 ==>
              pieces[1..][i] == pieces[i + 1] && pairs[1..][i] == pairs[i + 1] &&
              (pieces[i + 1] == pieces[0] <==> pairs[i + 1] == pairs[0])
  {
    hide ParsePair;
  }

  lemma {:induction false} TextsDenote(params: Params)
    requires Sendable(params)
    ensures Denotes(PairTexts(params), params)
    decreases |params|
  {
    hide PairText, ParsePair, KeyOk;
    PairTextsAre(params);
    forall i | 0 <= i < |params| ensures ParsePair(PairText(params[i])) == Some(params[i]) { PairRead(params[i]); }
  }

  lemma {:induction false} PairTextsAre(params: Params)
    requires ByteValues(params)
    ensures |PairTexts(params)| == |params|
    ensures forall i :: 0 <= i < |params| ==> PairTexts(params)[i] == PairText(params[i])
  {
    hide PairText;
    if params != [] { PairTextsAre(params[1..]); }
  }

  /** Merging leaves a sorted list sorted. */
  lemma {:induction false} MergedInserted(params: Params, seen: set<(string, string)>, before: Params)
    requires Sorted(before + params, false)
    ensures EmplaceAll(before, Merged(params, seen), false) == before + Merged(params, seen)
    decreases |params|
  {
    if params == [] {
      assert before + Merged(params, seen) == before;
    } else {
      var p, later := params[0], params[1..];
      SortedTail(params, before);
      if p in seen {
        MergedInserted(later, seen, before);
      } else {
        EmplaceNext(before, params, false);
        MergedInserted(later, seen + {p}, before + [p]);
        Regroup(before, p, Merged(later, seen + {p}));
        assert ([p] + Merged(later, seen + {p}))[1..] == Merged(later, seen + {p});
      }
    }
  }

  lemma Regroup(before: Params, p: (string, string), later: Params)
    ensures before + [p] + later == before + ([p] + later)
  {
  }

  lemma SortedTail(params: Params, before: Params)
    requires params != [] && Sorted(before + params, false)
    ensures Sorted(before + params[1..], false) && Sorted(before + [params[0]] + params[1..], false)
  {
    var shorter, all := before + params[1..], before + params;
    assert before + [params[0]] + params[1..] == all;
    forall i, j | 0 <= i < j < |shorter| ensures !Less(shorter[j].0, shorter[i].0, false) {
      var i', j' := if i < |before| then i else i + 1, if j < |before| then j else j + 1;
      assert shorter[i] == all[i'] && shorter[j] == all[j'];
    }
  }

  /** Round trip: a printed multimap is parsed back in order, exact repeats merged. */
  lemma {:induction false} RoundTrip(params: Params)
    requires Sendable(params)
    ensures ParseQuery(QueryStr(params)) == Merged(params, {})
  {
    hide Sorted, ParsePair, Less;
    QueryPieces(params);
    TextsDenote(params);
    PiecesParsed(PairTexts(params), params, {}, {}, []);
    assert [] + params == params;
    MergedInserted(params, {}, []);
    assert [] + Merged(params, {}) == Merged(params, {});
  }

  /** Merging keeps the pairs, each once. */
  lemma {:induction false} MergedIs(params: Params, seen: set<(string, string)>)
    ensures forall p :: p in Merged(params, seen) <==> p in params && p !in seen
    ensures forall i, j :: 0 <= i < j < |Merged(params, seen)| ==> Merged(params, seen)[i] != Merged(params, seen)[j]
  {
    if params != [] {
      assert forall p :: p in params <==> p == params[0] || p in params[1..];
      MergedIs(params[1..], if params[0] in seen then seen else seen + {params[0]});
    }
  }

  // ---- What other query strings mean ------------------------------------------------------------

  lemma PiecesOfJoin(fields: seq<string>)
    requires fields != [] && forall k :: 0 <= k < |fields| ==> '=' !in fields[k]
    ensures Pieces(JoinFields(fields, '='), '=') == Kept(fields)
  {
    hide Kept, JoinFields, Fields;
    FieldsOfJoin(fields, '=');
  }

  /** One piece of a query: of the fields between its equals signs the first that is not blank is the key
      and the last, if another, the value; both are trimmed and decoded, with plus signs for spaces. */
  lemma PairMeaning(fields: seq<string>, i: nat, j: nat)
    requires i <= j < |fields| && forall k :: 0 <= k < |fields| ==> '=' !in fields[k]
    requires !AllBlank(fields[i]) && !AllBlank(fields[j])
    requires forall k :: 0 <= k < |fields| && (k < i || j < k) ==> AllBlank(fields[k])
    ensures ParsePair(JoinFields(fields, '=')) ==
            Some((DecodeUrl(Trimmed(fields[i]), true), if i == j then "" else DecodeUrl(Trimmed(fields[j]), true)))
  {
    hide AllBlank, Kept, JoinFields, DecodeUrl, Trimmed, Fields, Pieces;
    PiecesOfJoin(fields);
    KeptEnds(fields, i, j);
  }

  lemma BlankPair(fields: seq<string>)
    requires fields != [] && forall k :: 0 <= k < |fields| ==> AllBlank(fields[k])
    ensures ParsePair(JoinFields(fields, '=')) == None
  {
    hide AllBlank, Kept, JoinFields, DecodeUrl, Trimmed;
    forall k | 0 <= k < |fields| ensures '=' !in fields[k] { BlankHasNoSign(fields[k]); }
    FieldsOfJoin(fields, '=');
    NoneKept(fields);
  }

  lemma BlankHasNoSign(s: string)
    requires AllBlank(s)
    ensures '=' !in s && '&' !in s
  {
  }

  /** A pair as a form sends it. */
  function FormPair(p: (string, string)): string
    requires AllBytes(p.0) && AllBytes(p.1)
  {
    FormText(p.0) + "=" + FormText(p.1)
  }

  predicate FormOk(pairs: Params) {
    forall i :: 0 <= i < |pairs| ==> AllBytes(pairs[i].0) && AllBytes(pairs[i].1) && pairs[i].0 != ""
  }

  function FormPairs(pairs: Params): seq<string>
    requires FormOk(pairs)
  {
    seq(|pairs|, i requires 0 <= i < |pairs| => FormPair(pairs[i]))
  }

  predicate FormPlain(c: char) { c != '&' && c != '=' && !IsBlank(c) }

  lemma {:induction false} FormIsPlain(s: string)
    requires AllBytes(s)
    ensures forall i :: 0 <= i < |FormText(s)| ==> FormPlain(FormText(s)[i])
    ensures s != "" ==> FormText(s) != ""
    ensures s == "" ==> FormText(s) == ""
  {
    if s != "" { FormIsPlain(s[1..]); }
  }

  lemma PlainTrims(s: string)
    requires forall i :: 0 <= i < |s| ==> FormPlain(s[i])
    ensures '=' !in s && '&' !in s && Trimmed(s) == s && (AllBlank(s) <==> s == "")
  {
    TrimmedKeeps(s);
    TrimmedBlank(s);
  }

  lemma {:induction false} FormPairRead(p: (string, string))
    requires AllBytes(p.0) && AllBytes(p.1) && p.0 != ""
    ensures ParsePair(FormPair(p)) == Some(p)
    ensures '&' !in FormPair(p) && Trimmed(FormPair(p)) == FormPair(p) != ""
  {
    hide FormText, Trimmed, FormPlain, DecodeUrl, AllBlank;
    var key, value := FormText(p.0), FormText(p.1);
    FormIsPlain(p.0);
    FormIsPlain(p.1);
    PlainTrims(key);
    PlainTrims(value);
    FormRoundTrip(p.0, true);
    FormRoundTrip(p.1, true);
    var fields := [key, value];
    assert fields[1..] == [value];
    assert ['='] == "=";
    assert JoinFields(fields, '=') == key + ['='] + value;
    assert fields[0] == key && fields[1] == value;
    PairMeaning(fields, 0, if p.1 == "" then 0 else 1);
    PlainEnds(key, value);
    TrimmedKeeps(FormPair(p));
  }

  lemma PlainEnds(key: string, value: string)
    requires key != "" && forall i :: 0 <= i < |key| ==> FormPlain(key[i])
    requires forall i :: 0 <= i < |value| ==> FormPlain(value[i])
    ensures NoOuterBlanks(key + "=" + value)
  {
  }

  lemma {:induction false} KeptAll(fields: seq<string>)
    requires forall i :: 0 <= i < |fields| ==> Trimmed(fields[i]) == fields[i] != ""
    ensures Kept(fields) == fields
  {
    if fields != [] { KeptAll(fields[1..]); }
  }

  /** Form data of any bytes, keys not empty, is parsed to exactly the pairs sent, exact repeats once, each
      key's values in the order they were sent. */
  lemma {:induction false} FormRead(pairs: Params, key: string)
    requires pairs != [] && FormOk(pairs)
    ensures var params := ParseQuery(JoinFields(FormPairs(pairs), '&'));
            && params == EmplaceAll([], Merged(pairs, {}), false)
            && Sorted(params, false)
            && ValuesOf(params, key, false) == ValuesOf(Merged(pairs, {}), key, false)
  {
    hide FormPair, ParsePair, Trimmed, Sorted, ValuesOf, EmplaceAll, Merged, JoinFields;
    var pieces := FormPairs(pairs);
    forall i | 0 <= i < |pairs|
      ensures ParsePair(pieces[i]) == Some(pairs[i]) && '&' !in pieces[i] && Trimmed(pieces[i]) == pieces[i] != ""
    {
      FormPairRead(pairs[i]);
    }
    FieldsOfJoin(pieces, '&');
    KeptAll(pieces);
    PiecesParsed(pieces, pairs, {}, {}, []);
    NothingYet(key);
    EmplaceAllIs([], Merged(pairs, {}), key, false);
  }

  lemma NothingYet(key: string)
    ensures Sorted([], false) && ValuesOf([], key, false) == []
  {
  }
}
