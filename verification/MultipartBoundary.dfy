/** The boundary of a multipart content type: what `Post` writes and `parse_multipart_boundary` reads. */
module MultipartBoundary {
  import opened Bytes
  import opened Text

  const PARAMETER := "boundary="
  const MEDIA_TYPE := "multipart/form-data; "

  function ContentType(boundary: string): string { MEDIA_TYPE + PARAMETER + boundary }

  predicate IsQuoted(s: string) { |s| >= 2 && s[0] == '"' && s[|s| - 1] == '"' }

  function ParseMultipartBoundary(contentType: string): Option<string> {
    var pos := Find(contentType, PARAMETER);
    if pos == |contentType| then None
    else
      var rest := contentType[pos + |PARAMETER|..];
      var boundary := if IsQuoted(rest) then rest[1..|rest| - 1] else rest;
      if boundary == "" then None else Some(boundary)
  }

  lemma ParameterFound(boundary: string)
    ensures Find(ContentType(boundary), PARAMETER) == |MEDIA_TYPE|
  {
    var s := ContentType(boundary);
    forall i | 0 <= i < |MEDIA_TYPE| ensures !At(s, PARAMETER, i) {
      if i + |PARAMETER| <= |s| {
        assert s[i] == MEDIA_TYPE[i];
        assert s[i..i + |PARAMETER|][0] == s[i];
      }
    }
    FindAfter(MEDIA_TYPE, PARAMETER, boundary);
  }

  /** A written boundary is read back exactly when it is not empty and not in quotes, so for every
      non-empty boundary that `Post` lets through. */
  lemma BoundaryReadBack(boundary: string)
    ensures ParseMultipartBoundary(ContentType(boundary)) == Some(boundary) <==>
            boundary != "" && !IsQuoted(boundary)
  {
    hide Find;
    ParameterFound(boundary);
    var rest := ContentType(boundary)[|MEDIA_TYPE| + |PARAMETER|..];
    assert rest == boundary;
  }

  /** The boundary is what follows the first `boundary=`, up to the end of the content type, without the
      quotes around it; an empty one and a missing parameter are refused. */
  lemma AnyContentType(before: string, v: string)
    requires forall i :: 0 <= i < |before| ==> !At(before + PARAMETER + v, PARAMETER, i)
    ensures !IsQuoted(v) ==>
              ParseMultipartBoundary(before + PARAMETER + v) == if v == "" then None else Some(v)
    ensures forall q :: v == "\"" + q + "\"" ==>
              ParseMultipartBoundary(before + PARAMETER + v) == if q == "" then None else Some(q)
  {
    hide Find;
    var s := before + PARAMETER + v;
    FindAfter(before, PARAMETER, v);
    assert s[|before| + |PARAMETER|..] == v;
    forall q | v == "\"" + q + "\"" ensures IsQuoted(v) && v[1..|v| - 1] == q {}
  }

  lemma NoParameter(contentType: string)
    requires !Contains(contentType, PARAMETER)
    ensures ParseMultipartBoundary(contentType) == None
  {
  }
}
