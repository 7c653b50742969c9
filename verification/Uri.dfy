/** `URI::fromString` (Appendix B of RFC 3986) and the functions that rebuild text from its result. The
    pattern is a POSIX extended one, so the backslash in its bracket lists is an excluded character like
    the others, and `.` does not match NUL. */
module Uri {
  import opened Text

  /** The groups of the pattern; a group that took no part in the match is `None`. */
  datatype Parts = Parts(
    scheme: Option<string>, authority: string, path: string, query: Option<string>, fragment: Option<string>)

  /** The fields of a `URI` object. */
  datatype URI = URI(scheme: string, authority: string, path: string, query: string, fragment: string) {
    predicate IsEmpty() { scheme == "" || authority == "" }
  }

  const SCHEME_STOPS := ":\\/?#"
  const AUTHORITY_STOPS := "\\/?#"
  const PATH_STOPS := "?#"
  const QUERY_STOPS := "#"

  predicate Free(s: string, stops: string) { forall i :: 0 <= i < |s| ==> s[i] !in stops }

  /** The first index from `from` on with one of `stops`. */
  function Span(s: string, from: nat, stops: string): (i: nat)
    requires from <= |s|
    ensures from <= i <= |s| && Free(s[from..i], stops)
    ensures i < |s| ==> s[i] in stops
    decreases |s| - from
  {
    if from == |s| || s[from] in stops then from
    else
      var i := Span(s, from + 1, stops);
      assert s[from..i] == [s[from]] + s[from + 1..i];
      i
  }

  /** Where the scheme and its colon end, 0 without a scheme. */
  function SchemeEnd(s: string): (i: nat)
    ensures i <= |s| && (i > 0 ==> i > 1 && s[i - 1] == ':' && Free(s[..i - 1], SCHEME_STOPS))
  {
    var e := Span(s, 0, SCHEME_STOPS);
    assert s[0..e] == s[..e];
    if 0 < e < |s| && s[e] == ':' then e + 1 else 0
  }

  /** The longest match of the pattern with its authority group, if the whole of `s` matches. */
  function Split(s: string): Option<Parts> {
    var a := SchemeEnd(s);
    if a + 2 <= |s| && s[a] == '/' && s[a + 1] == '/' then
      var p := Span(s, a + 2, AUTHORITY_STOPS);
      var q := Span(s, p, PATH_STOPS);
      var f := if q < |s| && s[q] == '?' then Span(s, q + 1, QUERY_STOPS) else q;
      if f < |s| && '\0' in s[f + 1..] then None
      else
        Some(Parts(
               if a == 0 then None else Some(s[..a - 1]), s[a + 2..p], s[p..q],
               if q < |s| && s[q] == '?' then Some(s[q + 1..f]) else None,
               if f < |s| then Some(s[f + 1..]) else None))
    else None
  }

  function OrEmpty(group: Option<string>): string { if group.Some? then group.value else "" }

  /** `fromString`; `None` is its exception. A fragment without a query is not stored. */
  function FromString(s: string): Option<URI> {
    var parts := Split(s);
    if parts.None? then None
    else
      var p := parts.value;
      Some(URI(OrEmpty(p.scheme), p.authority, p.path, OrEmpty(p.query),
               if p.query.Some? then OrEmpty(p.fragment) else ""))
  }

  // ---- The reference grammar ------------------------------------------------------------------

  function SchemeText(scheme: Option<string>): string { if scheme.Some? then scheme.value + ":" else "" }

  function QueryText(query: Option<string>): string { if query.Some? then "?" + query.value else "" }

  function FragmentText(fragment: Option<string>): string { if fragment.Some? then "#" + fragment.value else "" }

  function TextOf(p: Parts): string {
    SchemeText(p.scheme) + "//" + p.authority + p.path + QueryText(p.query) + FragmentText(p.fragment)
  }

  predicate WellFormed(p: Parts) {
    (p.scheme.Some? ==> p.scheme.value != "" && Free(p.scheme.value, ":\\/?#")) &&
    Free(p.authority, "\\/?#") &&
    Free(p.path, "?#") && (p.path != "" ==> p.path[0] == '/' || p.path[0] == '\\') &&
    (p.query.Some? ==> Free(p.query.value, "#")) &&
    (p.fragment.Some? ==> '\0' !in p.fragment.value)
  }

  /** A run of free bytes up to a stop, or the end, is what `Span` finds. */
  lemma {:induction false} SpanAt(s: string, from: nat, end: nat, stops: string)
    requires from <= end <= |s| && Free(s[from..end], stops) && (end < |s| ==> s[end] in stops)
    ensures Span(s, from, stops) == end
    decreases end - from
  {
    if from < end {
      assert s[from..end][0] == s[from] && s[from..end][1..] == s[from + 1..end];
      SpanAt(s, from + 1, end, stops);
    }
  }

  /** `p` is `s` cut at the four indices. */
  ghost predicate CutAt(s: string, a: nat, b: nat, q: nat, f: nat, p: Parts) {
    a + 2 <= b <= q <= f <= |s| && s[a] == '/' && s[a + 1] == '/' &&
    (a > 0 ==> a > 1 && s[a - 1] == ':') &&
    (q < |s| && s[q] == '?' ==> q < f) && (!(q < |s| && s[q] == '?') ==> f == q) &&
    (f < |s| ==> s[f] == '#') &&
    p == Parts(if a == 0 then None else Some(s[..a - 1]), s[a + 2..b], s[b..q],
               if q < |s| && s[q] == '?' then Some(s[q + 1..f]) else None,
               if f < |s| then Some(s[f + 1..]) else None)
  }

  /** What `Split` gives is such a cut, each part free of the bytes that end it. */
  lemma SplitCut(s: string) returns (a: nat, b: nat, q: nat, f: nat)
    requires Split(s).Some?
    ensures CutAt(s, a, b, q, f, Split(s).value)
    ensures a == SchemeEnd(s) && b == Span(s, a + 2, AUTHORITY_STOPS)
    ensures a > 0 ==> Free(s[..a - 1], SCHEME_STOPS)
    ensures Free(s[a + 2..b], AUTHORITY_STOPS) && (b < |s| ==> s[b] in AUTHORITY_STOPS)
    ensures Free(s[b..q], PATH_STOPS)
    ensures q < |s| && s[q] == '?' ==> Free(s[q + 1..f], QUERY_STOPS)
    ensures f < |s| ==> '\0' !in s[f + 1..]
  {
    hide Span, SchemeEnd, Free;
    a := SchemeEnd(s);
    b := Span(s, a + 2, AUTHORITY_STOPS);
    q := Span(s, b, PATH_STOPS);
    f := if q < |s| && s[q] == '?' then Span(s, q + 1, QUERY_STOPS) else q;
  }

  lemma Recomposed(s: string)
    requires Split(s).Some?
    ensures WellFormed(Split(s).value) && TextOf(Split(s).value) == s
  {
    hide Split, Span, SchemeEnd, Free, WellFormed, TextOf, CutAt;
    var a, b, q, f := SplitCut(s);
    CutText(s, a, b, q, f, Split(s).value);
    CutParts(s, a, b, q, f, Split(s).value);
  }

  lemma CutText(s: string, a: nat, b: nat, q: nat, f: nat, p: Parts)
    requires CutAt(s, a, b, q, f, p)
    ensures TextOf(p) == s
  {
    assert SchemeText(p.scheme) == s[..a];
    assert QueryText(p.query) == s[q..f];
    assert FragmentText(p.fragment) == s[f..];
    Rejoined(s, a, b, q, f);
  }

  lemma Rejoined(s: string, a: nat, b: nat, q: nat, f: nat)
    requires a + 2 <= b <= q <= f <= |s| && s[a] == '/' && s[a + 1] == '/'
    ensures s[..a] + "//" + s[a + 2..b] + s[b..q] + s[q..f] + s[f..] == s
  {
    assert s[..a] + "//" == s[..a + 2];
    assert s[..a + 2] + s[a + 2..b] == s[..b];
    assert s[..b] + s[b..q] == s[..q];
    assert s[..q] + s[q..f] == s[..f];
  }

  lemma CutParts(s: string, a: nat, b: nat, q: nat, f: nat, p: Parts)
    requires CutAt(s, a, b, q, f, p)
    requires a > 0 ==> Free(s[..a - 1], SCHEME_STOPS)
    requires Free(s[a + 2..b], AUTHORITY_STOPS) && (b < |s| ==> s[b] in AUTHORITY_STOPS)
    requires Free(s[b..q], PATH_STOPS)
    requires q < |s| && s[q] == '?' ==> Free(s[q + 1..f], QUERY_STOPS)
    requires f < |s| ==> '\0' !in s[f + 1..]
    ensures WellFormed(p)
  {
    if b < q {
      assert s[b..q][0] == s[b];
    }
  }

  /** The four indices that `Split` computes, on a text of the grammar. */
  lemma {:induction false} Indices(s: string, a: nat, b: nat, q: nat, f: nat, p: Parts)
    requires CutAt(s, a, b, q, f, p) && WellFormed(p)
    ensures SchemeEnd(s) == a && Span(s, a + 2, AUTHORITY_STOPS) == b && Span(s, b, PATH_STOPS) == q
    ensures q < |s| && s[q] == '?' ==> Span(s, q + 1, QUERY_STOPS) == f
  {
    hide Span, Free;
    SchemeIndex(s, a);
    if b < q { assert s[b] == s[b..q][0]; }
    SpanAt(s, a + 2, b, AUTHORITY_STOPS);
    SpanAt(s, b, q, PATH_STOPS);
    if q < |s| && s[q] == '?' { SpanAt(s, q + 1, f, QUERY_STOPS); }
  }

  lemma SchemeIndex(s: string, a: nat)
    requires a < |s| && s[a] == '/' && a != 1
    requires a > 0 ==> s[a - 1] == ':' && Free(s[..a - 1], SCHEME_STOPS)
    ensures SchemeEnd(s) == a
  {
    hide Span;
    if a > 0 {
      assert s[0..a - 1] == s[..a - 1];
      SpanAt(s, 0, a - 1, SCHEME_STOPS);
    } else {
      assert s[0..0] == "";
      SpanAt(s, 0, 0, SCHEME_STOPS);
    }
  }

  lemma Slices(p: Parts)
    ensures var s := TextOf(p);
            var a := |SchemeText(p.scheme)|;
            var b := a + 2 + |p.authority|;
            var q := b + |p.path|;
            var f := q + |QueryText(p.query)|;
            f <= |s| && s[..a] == SchemeText(p.scheme) && s[a..a + 2] == "//" && s[a + 2..b] == p.authority &&
            s[b..q] == p.path && s[q..f] == QueryText(p.query) && s[f..] == FragmentText(p.fragment)
  {
  }

  /** `fromString` accepts exactly the texts of the grammar, and reads each one in the only way. */
  lemma Unambiguous(s: string, p: Parts)
    ensures Split(s) == Some(p) <==> WellFormed(p) && TextOf(p) == s
  {
    hide SchemeEnd, Span, TextOf, WellFormed;
    if Split(s) == Some(p) { Recomposed(s); }
    if WellFormed(p) && TextOf(p) == s { ReadBack(p); }
  }

  lemma SplitAt(s: string, a: nat, b: nat, q: nat, f: nat, p: Parts)
    requires CutAt(s, a, b, q, f, p)
    requires SchemeEnd(s) == a && Span(s, a + 2, AUTHORITY_STOPS) == b && Span(s, b, PATH_STOPS) == q
    requires q < |s| && s[q] == '?' ==> Span(s, q + 1, QUERY_STOPS) == f
    requires p.fragment.Some? ==> '\0' !in p.fragment.value
    ensures Split(s) == Some(p)
  {
    hide SchemeEnd, Span;
  }

  lemma ReadBack(p: Parts)
    requires WellFormed(p)
    ensures Split(TextOf(p)) == Some(p)
  {
    hide SchemeEnd, Span, TextOf, Free, CutAt, Split, SchemeText, QueryText, FragmentText;
    var a, b, q, f := Ends(p);
    PartsAt(p);
    Indices(TextOf(p), a, b, q, f, p);
    SplitAt(TextOf(p), a, b, q, f, p);
  }

  /** Where the parts end in their text. */
  lemma Ends(p: Parts) returns (a: nat, b: nat, q: nat, f: nat)
    ensures a == |SchemeText(p.scheme)| && b == a + 2 + |p.authority|
    ensures q == b + |p.path| && f == q + |QueryText(p.query)|
  {
    a := |SchemeText(p.scheme)|;
    b := a + 2 + |p.authority|;
    q := b + |p.path|;
    f := q + |QueryText(p.query)|;
  }

  /** The parts stand in their text where the indices say. */
  lemma PartsAt(p: Parts)
    requires WellFormed(p)
    ensures var s := TextOf(p);
            var a := |SchemeText(p.scheme)|;
            var b := a + 2 + |p.authority|;
            var q := b + |p.path|;
            var f := q + |QueryText(p.query)|;
            CutAt(s, a, b, q, f, p)
  {
    hide TextOf;
    Slices(p);
    var s := TextOf(p);
    var a := |SchemeText(p.scheme)|;
    var q := a + 2 + |p.authority| + |p.path|;
    var f := q + |QueryText(p.query)|;
    assert s[a] == s[a..a + 2][0] && s[a + 1] == s[a..a + 2][1];
    if p.scheme.Some? { assert s[a - 1] == s[..a][a - 1] && s[..a - 1] == s[..a][..a - 1]; }
    if p.query.Some? { assert s[q] == s[q..f][0] && s[q + 1..f] == s[q..f][1..]; }
    if p.fragment.Some? { assert s[f] == s[f..][0] && s[f + 1..] == s[f..][1..]; }
    if q == f && q < |s| { assert s[q] == s[f..][0]; }
  }

  /** `fromString` accepts exactly the grammar's texts and stores their parts, absent ones as empty; only a
      fragment without a query is dropped. */
  lemma StoredParts(s: string, p: Parts)
    ensures FromString(s).Some? <==> exists p' :: WellFormed(p') && TextOf(p') == s
    ensures WellFormed(p) && TextOf(p) == s ==>
              FromString(s) ==
              Some(URI(if p.scheme.Some? then p.scheme.value else "", p.authority, p.path,
                       if p.query.Some? then p.query.value else "",
                       if p.query.Some? && p.fragment.Some? then p.fragment.value else ""))
  {
    hide Split, WellFormed, TextOf;
    forall p' ensures Split(s) == Some(p') <==> WellFormed(p') && TextOf(p') == s { Unambiguous(s, p'); }
  }

  // ---- Rebuilding text ------------------------------------------------------------------------

  /** `formatDownloadPath`. */
  function FormatDownloadPath(u: URI): string { if u.query == "" then u.path else u.path + "?" + u.query }

  /** The text after the authority and before the first `#` from there on. */
  function RequestTarget(s: string): string
    requires Split(s).Some?
  {
    var b := Span(s, SchemeEnd(s) + 2, AUTHORITY_STOPS);
    s[b..Span(s, b, QUERY_STOPS)]
  }

  /** A download is requested under the very slice of its link after the authority and before the
      fragment; only a `?` that nothing follows is dropped. */
  lemma DownloadPathIsSlice(s: string)
    requires Split(s).Some?
    ensures var target := RequestTarget(s);
            FormatDownloadPath(FromString(s).value) ==
            if Split(s).value.query == Some("") then target[..|target| - 1] else target
  {
    hide Split, Span, SchemeEnd, Free, CutAt, FromString, FormatDownloadPath, QueryText, RequestTarget;
    FormatIs(s);
    var a, b, q, f := SplitCut(s);
    CutTarget(s, a, b, q, f, Split(s).value);
    TargetAt(s, b, q, f);
    RequestTargetIs(s, b, f);
  }

  lemma RequestTargetIs(s: string, b: nat, f: nat)
    requires Split(s).Some? && b == Span(s, SchemeEnd(s) + 2, AUTHORITY_STOPS) && f == Span(s, b, QUERY_STOPS)
    ensures RequestTarget(s) == s[b..f]
  {
    hide Split, Span, SchemeEnd;
  }

  lemma FormatIs(s: string)
    requires Split(s).Some?
    ensures var p := Split(s).value;
            FormatDownloadPath(FromString(s).value) ==
            if p.query == Some("") then p.path else p.path + QueryText(p.query)
  {
    hide Split;
  }

  lemma CutTarget(s: string, a: nat, b: nat, q: nat, f: nat, p: Parts)
    requires CutAt(s, a, b, q, f, p)
    ensures b <= q <= f <= |s| && (f < |s| ==> s[f] == '#')
    ensures if q < |s| && s[q] == '?' then q < f else f == q
    ensures p.path + QueryText(p.query) == s[b..f]
    ensures p.query == Some("") ==> p.path == s[b..f][..f - b - 1]
  {
    if p.query.Some? {
      assert s[b..q] + ("?" + s[q + 1..f]) == s[b..f];
    }
  }

  /** Path and query together are what lies before the first `#`. */
  lemma {:induction false} TargetAt(s: string, b: nat, q: nat, f: nat)
    requires b <= q <= f <= |s| && Free(s[b..q], PATH_STOPS)
    requires if q < |s| && s[q] == '?' then q < f && Free(s[q + 1..f], QUERY_STOPS) else f == q
    requires f < |s| ==> s[f] == '#'
    ensures Span(s, b, QUERY_STOPS) == f
  {
    forall i | b <= i < f ensures s[i] != '#' {
      if i < q {
        assert s[b..q][i - b] == s[i];
      } else if i > q {
        assert s[q + 1..f][i - q - 1] == s[i];
      }
    }
    assert Free(s[b..f], QUERY_STOPS);
    SpanAt(s, b, f, QUERY_STOPS);
  }

  /** `hawkbitEndpointFrom`; `None` when the endpoint is not a URI. */
  function HawkbitEndpointFrom(endpoint: string, controllerId: string, tenant: string): Option<string> {
    var u := FromString(endpoint);
    if u.None? then None
    else Some(u.value.scheme + "://" + u.value.authority + "/" + tenant + "/controller/v1/" + controllerId)
  }

  function ControllerPath(controllerId: string, tenant: string): string {
    "/" + tenant + "/controller/v1/" + controllerId
  }

  /** The address built for a controller is read back as the endpoint's scheme and authority and the
      controller's path, exactly when the endpoint has a scheme and neither name has a `?` or `#`. */
  lemma EndpointReadBack(endpoint: string, controllerId: string, tenant: string)
    requires FromString(endpoint).Some?
    ensures var u := FromString(endpoint).value;
            FromString(HawkbitEndpointFrom(endpoint, controllerId, tenant).value) ==
              Some(URI(u.scheme, u.authority, ControllerPath(controllerId, tenant), "", "")) <==>
            u.scheme != "" && Free(tenant, PATH_STOPS) && Free(controllerId, PATH_STOPS)
  {
    hide Split, TextOf, WellFormed;
    var u := FromString(endpoint).value;
    var s := HawkbitEndpointFrom(endpoint, controllerId, tenant).value;
    EndpointParts(endpoint);
    if u.scheme != "" && Free(tenant, PATH_STOPS) && Free(controllerId, PATH_STOPS) {
      EndpointText(u, controllerId, tenant);
    } else if Split(s).Some? {
      EndpointFails(u, controllerId, tenant);
    }
  }

  lemma EndpointParts(endpoint: string)
    requires FromString(endpoint).Some?
    ensures Free(FromString(endpoint).value.scheme, SCHEME_STOPS)
    ensures Free(FromString(endpoint).value.authority, AUTHORITY_STOPS)
  {
    hide Split;
    Recomposed(endpoint);
  }

  lemma ControllerPathFree(controllerId: string, tenant: string)
    ensures Free(ControllerPath(controllerId, tenant), PATH_STOPS) <==>
            Free(tenant, PATH_STOPS) && Free(controllerId, PATH_STOPS)
  {
    var path := ControllerPath(controllerId, tenant);
    assert path == "/" + tenant + ("/controller/v1/" + controllerId);
    forall i | 0 <= i < |tenant| ensures path[1 + i] == tenant[i] {}
    forall i | 0 <= i < |controllerId| ensures path[16 + |tenant| + i] == controllerId[i] {}
  }

  lemma EndpointText(u: URI, controllerId: string, tenant: string)
    requires u.scheme != "" && Free(u.scheme, SCHEME_STOPS) && Free(u.authority, AUTHORITY_STOPS)
    requires Free(tenant, PATH_STOPS) && Free(controllerId, PATH_STOPS)
    ensures var path := ControllerPath(controllerId, tenant);
            Split(u.scheme + "://" + u.authority + "/" + tenant + "/controller/v1/" + controllerId) ==
            Some(Parts(Some(u.scheme), u.authority, path, None, None))
  {
    hide Split;
    var path := ControllerPath(controllerId, tenant);
    var p := Parts(Some(u.scheme), u.authority, path, None, None);
    ControllerPathFree(controllerId, tenant);
    ReadBack(p);
    assert TextOf(p) == u.scheme + "://" + u.authority + "/" + tenant + "/controller/v1/" + controllerId;
  }

  lemma EndpointFails(u: URI, controllerId: string, tenant: string)
    requires u.scheme == "" || !Free(tenant, PATH_STOPS) || !Free(controllerId, PATH_STOPS)
    requires Split(u.scheme + "://" + u.authority + "/" + tenant + "/controller/v1/" + controllerId).Some?
    ensures Split(u.scheme + "://" + u.authority + "/" + tenant + "/controller/v1/" + controllerId).value.path !=
            ControllerPath(controllerId, tenant)
  {
    hide Split;
    var s := u.scheme + "://" + u.authority + "/" + tenant + "/controller/v1/" + controllerId;
    var p := Split(s).value;
    Recomposed(s);
    ControllerPathFree(controllerId, tenant);
    if u.scheme == "" { NoLeadingColon(p); }
  }

  lemma NoLeadingColon(p: Parts)
    requires WellFormed(p)
    ensures TextOf(p)[0] != ':'
  {
    var rest := "//" + p.authority + p.path + QueryText(p.query) + FragmentText(p.fragment);
    assert rest[0] == '/';
    assert TextOf(p)[0] == (if p.scheme.Some? then p.scheme.value[0] else '/');
  }
}
