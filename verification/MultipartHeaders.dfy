/** What a part's header lines mean: the Content-Disposition pattern as a relation between bytes, the
    Content-Type line, and all other lines, which say nothing. */
module MultipartHeaders {
  import opened Bytes
  import opened Text
  import opened Multipart
  import MultipartStream
  import opened MultipartEntries
  import opened MultipartRefinement
  import opened MultipartCallbacks

  // ---- The pattern ----------------------------------------------------------------------------

  /** `s` is `word` but for the case of its letters. */
  predicate Spells(s: string, word: string) {
    |s| == |word| && forall i :: 0 <= i < |s| ==> SameLetter(s[i], word[i])
  }

  predicate AllSpace(s: string) { forall i :: 0 <= i < |s| ==> IsSpace(s[i]) }

  /** What the pattern's dot can match. */
  predicate OnOneLine(s: string) { '\r' !in s && '\n' !in s }

  /** The end of a line, from the quote after the name on. */
  ghost predicate TailMatches(tail: string, filename: string) {
    (AllSpace(tail) && filename == "") ||
    exists space, word, end ::
      tail == ";" + (space + (word + (filename + "\"" + end))) && OnOneLine(filename) &&
      AllSpace(space) && Spells(word, "filename=\"") && AllSpace(end)
  }

  /** The three words before the name, with white space between them. */
  ghost predicate IntroMatches(intro: string) {
    exists disposition, s1, data, s2, word ::
      intro == disposition + (s1 + (data + (s2 + word))) && AllSpace(s1) && AllSpace(s2) &&
      Spells(disposition, "Content-Disposition:") && Spells(data, "form-data;") && Spells(word, "name=\"")
  }

  /** The line is in the pattern's language, with these two groups. */
  ghost predicate Matches(line: string, name: string, filename: string) {
    exists intro, tail ::
      line == intro + (name + "\"" + tail) && IntroMatches(intro) && OnOneLine(name) && TailMatches(tail, filename)
  }

  lemma EatIs(s: string, word: string)
    ensures Eat(s, word).Some? <==> |word| <= |s| && Spells(s[..|word|], word)
    ensures Eat(s, word).Some? ==> s == s[..|word|] + Eat(s, word).value
  {
    hide ToLower, SameLetter;
    forall i | 0 <= i < |word| && |word| <= |s|
      ensures ToLower(s[i]) == ToLower(word[i]) <==> SameLetter(s[i], word[i])
    {
      LowerIsSameLetter(s[i], word[i]);
    }
    if |word| <= |s| { assert forall i :: 0 <= i < |word| ==> s[..|word|][i] == s[i]; }
  }

  lemma EatSpelled(v: string, word: string, rest: string)
    requires Spells(v, word)
    ensures Eat(v + rest, word) == Some(rest)
  {
    hide SameLetter, Spells;
    assert |v| == |word| by { Lengths(v, word); }
    EatIs(v + rest, word);
    assert (v + rest)[..|word|] == v && (v + rest)[|word|..] == rest;
  }

  lemma Lengths(v: string, word: string)
    requires Spells(v, word)
    ensures |v| == |word|
  {
  }

  /** White space is skipped up to a word. */
  lemma {:induction false} SpaceSkipped(space: string, rest: string)
    requires AllSpace(space) && (rest != "" ==> !IsSpace(rest[0]))
    ensures SkipSpaces(space + rest) == rest
  {
    if space == "" {
      assert space + rest == rest;
    } else {
      assert (space + rest)[1..] == space[1..] + rest;
      SpaceSkipped(space[1..], rest);
    }
  }

  lemma {:induction false} SpaceSplit(s: string) returns (space: string)
    ensures s == space + SkipSpaces(s) && AllSpace(space)
  {
    if s != "" && IsSpace(s[0]) {
      var later := SpaceSplit(s[1..]);
      space := [s[0]] + later;
      assert s == [s[0]] + s[1..];
    } else {
      space := "";
    }
  }

  lemma {:induction false} AllSkipped(s: string)
    ensures SkipSpaces(s) == "" <==> AllSpace(s)
  {
    var space := SpaceSplit(s);
    assert space + "" == space && s + "" == s;
    if AllSpace(s) { SpaceSkipped(s, ""); }
  }

  /** A word begins with a byte that is not white space. */
  lemma SpelledStart(v: string, word: string, rest: string)
    requires Spells(v, word) && word != "" && !IsSpace(word[0]) && word[0] as int > 32
    ensures v + rest != "" && !IsSpace((v + rest)[0])
  {
    assert SameLetter(v[0], word[0]);
  }

  lemma {:induction false} FilenameSound(s: string, i: nat)
    requires i <= |s| && OnOneLine(s[..i]) && FilenameFrom(s, i).Some?
    ensures exists end :: s == FilenameFrom(s, i).value + "\"" + end && AllSpace(end)
    ensures OnOneLine(FilenameFrom(s, i).value)
    decreases |s| - i
  {
    hide SkipSpaces, AllSpace;
    if s[i] == '"' && SkipSpaces(s[i + 1..]) == "" {
      AllSkipped(s[i + 1..]);
      assert s == s[..i] + "\"" + s[i + 1..];
    } else {
      assert s[..i + 1] == s[..i] + [s[i]];
      FilenameSound(s, i + 1);
    }
  }

  lemma {:induction false} FilenameComplete(s: string, i: nat, filename: string, end: string)
    requires s == filename + "\"" + end && AllSpace(end) && OnOneLine(filename) && i <= |filename|
    ensures FilenameFrom(s, i).Some? && ('"' !in filename ==> FilenameFrom(s, i).value == filename)
    decreases |filename| - i
  {
    hide SkipSpaces, AllSpace;
    if i == |filename| {
      assert s[i + 1..] == end && s[..i] == filename;
      AllSkipped(end);
    } else {
      assert s[i] == filename[i];
      FilenameComplete(s, i + 1, filename, end);
    }
  }

  lemma TailSound(s: string)
    requires FilenameTail(s).Some?
    ensures TailMatches(s, FilenameTail(s).value)
  {
    hide SkipSpaces, AllSpace, Eat, FilenameFrom, Spells;
    AllSkipped(s);
    if s != "" && s[0] == ';' {
      var space := SpaceSplit(s[1..]);
      var t := SkipSpaces(s[1..]);
      EatIs(t, "filename=\"");
      var eaten := Eat(t, "filename=\"");
      if eaten.Some? && FilenameFrom(eaten.value, 0).Some? {
        var filename, word := FilenameFrom(eaten.value, 0).value, t[..|"filename=\""|];
        assert eaten.value[..0] == "";
        FilenameSound(eaten.value, 0);
        var end :| eaten.value == filename + "\"" + end && AllSpace(end);
        assert s == ";" + s[1..] == ";" + (space + (word + (filename + "\"" + end)));
      }
    }
  }

  lemma TailComplete(s: string, filename: string)
    requires TailMatches(s, filename)
    ensures FilenameTail(s).Some? && ('"' !in filename ==> FilenameTail(s).value == filename)
  {
    hide SkipSpaces, AllSpace, Eat, FilenameFrom, Spells;
    AllSkipped(s);
    if !(AllSpace(s) && filename == "") {
      var space, word, end :|
        s == ";" + (space + (word + (filename + "\"" + end))) && OnOneLine(filename) &&
        AllSpace(space) && Spells(word, "filename=\"") && AllSpace(end);
      var rest := filename + "\"" + end;
      assert s[1..] == space + (word + rest);
      SpelledStart(word, "filename=\"", rest);
      SpaceSkipped(space, word + rest);
      EatSpelled(word, "filename=\"", rest);
      FilenameComplete(rest, 0, filename, end);
    } else if s != "" && s[0] == ';' {
      SpaceOnly(s, 0);
    }
  }

  lemma SpaceOnly(s: string, i: nat)
    requires AllSpace(s) && i < |s|
    ensures IsSpace(s[i])
  {
  }

  lemma {:induction false} NameSound(s: string, i: nat)
    requires i <= |s| && OnOneLine(s[..i]) && NameFrom(s, i).Some?
    ensures var (name, filename) := NameFrom(s, i).value;
            OnOneLine(name) && exists tail :: s == name + "\"" + tail && TailMatches(tail, filename)
    decreases |s| - i
  {
    hide FilenameTail, TailMatches;
    if s[i] == '"' && FilenameTail(s[i + 1..]).Some? {
      TailSound(s[i + 1..]);
      assert s == s[..i] + "\"" + s[i + 1..];
    } else {
      assert s[..i + 1] == s[..i] + [s[i]];
      NameSound(s, i + 1);
    }
  }

  /** The shortest name is taken, so the one without a quote in it is. */
  lemma {:induction false} NameComplete(s: string, i: nat, name: string, filename: string, tail: string)
    requires s == name + "\"" + tail && OnOneLine(name) && TailMatches(tail, filename) && i <= |name|
    ensures NameFrom(s, i).Some? && |NameFrom(s, i).value.0| <= |name|
    ensures '"' !in name && '"' !in filename ==> NameFrom(s, i) == Some((name, filename))
    decreases |name| - i
  {
    hide FilenameTail, TailMatches;
    if i == |name| {
      assert s[i + 1..] == tail && s[..i] == name;
      TailComplete(tail, filename);
    } else {
      assert s[i] == name[i];
      NameComplete(s, i + 1, name, filename, tail);
    }
  }

  /** What is left of a line after the three words. */
  function AfterIntro(line: string): Option<string> {
    match Eat(line, "Content-Disposition:")
    case None => None
    case Some(a) =>
      match Eat(SkipSpaces(a), "form-data;")
      case None => None
      case Some(b) => Eat(SkipSpaces(b), "name=\"")
  }

  lemma AfterIntroIs(line: string)
    ensures Disposition(line) == (if AfterIntro(line).None? then None else NameFrom(AfterIntro(line).value, 0))
  {
    hide Eat, SkipSpaces, NameFrom;
  }

  lemma IntroSound(line: string) returns (intro: string)
    requires AfterIntro(line).Some?
    ensures IntroMatches(intro) && line == intro + AfterIntro(line).value
  {
    hide SkipSpaces, AllSpace, Eat, Spells;
    var w1, w2, w3 := "Content-Disposition:", "form-data;", "name=\"";
    EatIs(line, w1);
    var a := Eat(line, w1).value;
    var s1 := SpaceSplit(a);
    EatIs(SkipSpaces(a), w2);
    var b := Eat(SkipSpaces(a), w2).value;
    var s2 := SpaceSplit(b);
    EatIs(SkipSpaces(b), w3);
    var v1, v2, v3 := line[..|w1|], SkipSpaces(a)[..|w2|], SkipSpaces(b)[..|w3|];
    var c := AfterIntro(line).value;
    intro := v1 + (s1 + (v2 + (s2 + v3)));
    assert line == v1 + (s1 + (v2 + (s2 + (v3 + c))));
    Regroup(v1, s1, v2, s2, v3, c);
  }

  lemma Regroup(a: string, b: string, c: string, d: string, e: string, f: string)
    ensures a + (b + (c + (d + e))) + f == a + (b + (c + (d + (e + f))))
  {
    Assoc(d, e, f);
    Assoc(c, d + e, f);
    Assoc(b, c + (d + e), f);
    Assoc(a, b + (c + (d + e)), f);
  }

  lemma IntroComplete(intro: string, c: string)
    requires IntroMatches(intro)
    ensures AfterIntro(intro + c) == Some(c)
  {
    hide SkipSpaces, AllSpace, Eat, Spells;
    var w1, w2, w3 := "Content-Disposition:", "form-data;", "name=\"";
    var v1, s1, v2, s2, v3 :|
      intro == v1 + (s1 + (v2 + (s2 + v3))) && AllSpace(s1) && AllSpace(s2) &&
      Spells(v1, w1) && Spells(v2, w2) && Spells(v3, w3);
    Regroup(v1, s1, v2, s2, v3, c);
    EatSpelled(v1, w1, s1 + (v2 + (s2 + (v3 + c))));
    SpelledStart(v2, w2, s2 + (v3 + c));
    SpaceSkipped(s1, v2 + (s2 + (v3 + c)));
    EatSpelled(v2, w2, s2 + (v3 + c));
    SpelledStart(v3, w3, c);
    SpaceSkipped(s2, v3 + c);
    EatSpelled(v3, w3, c);
  }

  /** The recogniser decides the pattern: it captures groups that the line matches with, and finds some
      whenever the line matches at all; and those without a quote in them exactly. */
  lemma DispositionIs(line: string, name: string, filename: string)
    ensures Disposition(line).Some? ==> Matches(line, Disposition(line).value.0, Disposition(line).value.1)
    ensures Matches(line, name, filename) ==> Disposition(line).Some? && |Disposition(line).value.0| <= |name|
    ensures '"' !in name && '"' !in filename ==>
              (Disposition(line) == Some((name, filename)) <==> Matches(line, name, filename))
  {
    hide AfterIntro, NameFrom, IntroMatches, TailMatches, Disposition;
    AfterIntroIs(line);
    if Disposition(line).Some? {
      var intro := IntroSound(line);
      var s := AfterIntro(line).value;
      assert s[..0] == "";
      NameSound(s, 0);
      var (n, f) := NameFrom(s, 0).value;
      var tail :| s == n + "\"" + tail && TailMatches(tail, f);
      assert line == intro + (n + "\"" + tail);
    }
    if Matches(line, name, filename) {
      var intro, tail :|
        line == intro + (name + "\"" + tail) && IntroMatches(intro) && OnOneLine(name) && TailMatches(tail, filename);
      IntroComplete(intro, name + "\"" + tail);
      NameComplete(name + "\"" + tail, 0, name, filename, tail);
    }
  }

  // ---- What a header section says -------------------------------------------------------------

  predicate Begins(line: string, word: string) { |word| <= |line| && Spells(line[..|word|], word) }

  /** A Content-Type line with this value, blanks around it left out. */
  ghost predicate TypeMatches(line: string, contentType: string) {
    exists word, before, after ::
      line == word + (before + contentType + after) && Spells(word, "Content-Type:") &&
      AllBlank(before) && AllBlank(after) && NoOuterBlanks(contentType)
  }

  ghost predicate NamesNothing(line: string) { forall name, filename :: !Matches(line, name, filename) }

  lemma TypeBegins(line: string)
    ensures StartsWithIgnoreCase(line, CONTENT_TYPE_NAME) <==> Begins(line, "Content-Type:")
  {
    var word := "Content-Type:";
    assert forall i :: 0 <= i < 13 ==> ToLower(word[i]) == ToLower(CONTENT_TYPE_NAME[i]);
    EatIs(line, word);
  }

  lemma MatchBegins(line: string, name: string, filename: string)
    requires Matches(line, name, filename)
    ensures Begins(line, "Content-Disposition:") && !Begins(line, "Content-Type:")
  {
    hide AllSpace, TailMatches, Spells;
    var intro, tail :|
      line == intro + (name + "\"" + tail) && IntroMatches(intro) && OnOneLine(name) && TailMatches(tail, filename);
    var v1, s1, v2, s2, v3 :|
      intro == v1 + (s1 + (v2 + (s2 + v3))) && AllSpace(s1) && AllSpace(s2) &&
      Spells(v1, "Content-Disposition:") && Spells(v2, "form-data;") && Spells(v3, "name=\"");
    Lengths(v1, "Content-Disposition:");
    assert line[..20] == v1;
    OneWord(line);
  }

  lemma OneWord(line: string)
    requires Begins(line, "Content-Disposition:")
    ensures !Begins(line, "Content-Type:")
  {
    assert line[..20][8] == line[8];
    if |line| >= 13 { assert line[..13][8] == line[8]; }
  }

  lemma {:induction false} TrimmedAround(before: string, s: string, after: string)
    requires AllBlank(before) && AllBlank(after) && NoOuterBlanks(s)
    ensures Trimmed(before + s + after) == s
  {
    hide IsBlank;
    var text := before + s + after;
    if s == "" {
      TrimmedBlank(text);
    } else {
      TrimmedIs(text, |before|, |before| + |s|);
      assert text[|before|..|before| + |s|] == s;
    }
  }

  lemma TypeRead(line: string, contentType: string, file: FileInfo)
    requires TypeMatches(line, contentType)
    ensures Begins(line, "Content-Type:")
    ensures ReadHeaderLine(file, line) == file.(contentType := contentType)
  {
    hide AllBlank, NoOuterBlanks, Trimmed, Spells, Disposition;
    var word, before, after :|
      line == word + (before + contentType + after) && Spells(word, "Content-Type:") &&
      AllBlank(before) && AllBlank(after) && NoOuterBlanks(contentType);
    Lengths(word, "Content-Type:");
    assert line[..13] == word && line[13..] == before + contentType + after;
    TypeBegins(line);
    TrimmedAround(before, contentType, after);
  }

  /** What a line does: a Content-Disposition line sets the name and filename, a Content-Type line the
      content type, and every other line nothing. */
  lemma LineMeaning(line: string, file: FileInfo)
    ensures var file' := ReadHeaderLine(file, line);
            && (!Begins(line, "Content-Type:") ==> file'.contentType == file.contentType)
            && (NamesNothing(line) ==> file'.name == file.name && file'.filename == file.filename)
            && (forall name, filename :: Matches(line, name, filename) && '"' !in name && '"' !in filename ==>
                  file' == file.(name := name, filename := filename))
  {
    hide Disposition, Matches, Begins, StartsWithIgnoreCase;
    TypeBegins(line);
    forall name, filename | Matches(line, name, filename)
      ensures !Begins(line, "Content-Type:")
      ensures '"' !in name && '"' !in filename ==> Disposition(line) == Some((name, filename))
    {
      MatchBegins(line, name, filename);
      DispositionIs(line, name, filename);
    }
    DispositionIs(line, "", "");
  }

  /** The last line that says something of the name says this, and so with the content type. */
  ghost predicate Says(lines: seq<string>, file: FileInfo) {
    SaysName(lines, file.name, file.filename) && SaysType(lines, file.contentType)
  }

  ghost predicate SaysName(lines: seq<string>, name: string, filename: string) {
    if lines == [] then name == "" && filename == ""
    else if NamesNothing(lines[|lines| - 1]) then SaysName(lines[..|lines| - 1], name, filename)
    else '"' !in name && '"' !in filename && Matches(lines[|lines| - 1], name, filename)
  }

  ghost predicate SaysType(lines: seq<string>, contentType: string) {
    if lines == [] then contentType == ""
    else if !Begins(lines[|lines| - 1], "Content-Type:") then SaysType(lines[..|lines| - 1], contentType)
    else TypeMatches(lines[|lines| - 1], contentType)
  }

  lemma {:induction false} FileAfterSnoc(file: FileInfo, lines: seq<string>)
    requires lines != []
    ensures FileAfter(file, lines) == ReadHeaderLine(FileAfter(file, lines[..|lines| - 1]), lines[|lines| - 1])
    decreases |lines|
  {
    hide ReadHeaderLine;
    if |lines| > 1 {
      assert lines[1..][..|lines| - 2] == lines[..|lines| - 1][1..];
      FileAfterSnoc(ReadHeaderLine(file, lines[0]), lines[1..]);
    } else {
      assert lines[1..] == [] && lines[..0] == [];
    }
  }

  lemma {:induction false} SaidName(lines: seq<string>, name: string, filename: string)
    requires SaysName(lines, name, filename)
    ensures FileAfter(NO_FILE, lines).name == name && FileAfter(NO_FILE, lines).filename == filename
    decreases |lines|
  {
    hide ReadHeaderLine, Matches, NamesNothing, FileAfter;
    if lines == [] {
      NoLines();
    } else {
      var before, line := lines[..|lines| - 1], lines[|lines| - 1];
      FileAfterSnoc(NO_FILE, lines);
      LineMeaning(line, FileAfter(NO_FILE, before));
      if NamesNothing(line) { SaidName(before, name, filename); }
    }
  }

  lemma NoLines()
    ensures FileAfter(NO_FILE, []) == NO_FILE
  {
  }

  lemma {:induction false} SaidType(lines: seq<string>, contentType: string)
    requires SaysType(lines, contentType)
    ensures FileAfter(NO_FILE, lines).contentType == contentType
    decreases |lines|
  {
    hide ReadHeaderLine, Matches, NamesNothing, FileAfter, Begins, TypeMatches;
    if lines == [] {
      NoLines();
    } else {
      var before, line := lines[..|lines| - 1], lines[|lines| - 1];
      FileAfterSnoc(NO_FILE, lines);
      LineMeaning(line, FileAfter(NO_FILE, before));
      if Begins(line, "Content-Type:") {
        TypeRead(line, contentType, FileAfter(NO_FILE, before));
      } else {
        SaidType(before, contentType);
      }
    }
  }

  lemma {:induction false} PartsAre(entries: seq<Entry>, parts: seq<MultipartStream.Part>)
    requires |parts| == |entries|
    requires forall i :: 0 <= i < |entries| ==> Says(entries[i].lines, parts[i].file)
    requires forall i :: 0 <= i < |entries| ==> parts[i].content == entries[i].content
    ensures PartsFor(entries) == parts
    decreases |entries|
  {
    hide SaysName, SaysType, FileAfter;
    if entries != [] {
      SaidName(entries[0].lines, parts[0].file.name, parts[0].file.filename);
      SaidType(entries[0].lines, parts[0].file.contentType);
      PartsAre(entries[1..], parts[1..]);
      assert parts == [parts[0]] + parts[1..];
    }
  }

  /** What one call reads from a body of any entries. Each part has the name and filename of the last line
      that matches the Content-Disposition pattern, the content type of the last Content-Type line, and
      exactly the content; lines of any other kind, anywhere among them, change nothing, nor do the order
      of the known ones, the case of their letters and the white space in them. */
  lemma {:induction false} AnyHeaderLines(
    entries: seq<Entry>, parts: seq<MultipartStream.Part>, boundary: string, answer: Callbacks)
    requires AllOk(entries, boundary) && |parts| == |entries|
    requires forall i :: 0 <= i < |entries| ==>
               Says(entries[i].lines, parts[i].file) && parts[i].content == entries[i].content
    requires Accepted(answer, Multipart.Parse(INITIAL, BodyText(entries, boundary), boundary, answer).0.calls, 0)
    ensures var (c, ok) := Multipart.Parse(INITIAL, BodyText(entries, boundary), boundary, answer);
            && ok == c.valid == FirstLinesFit(entries)
            && (c.valid ==> c.buf == "" && PartsOf(c.calls) == parts)
  {
    hide Says, Multipart.Parse, BodyText, PartsFor, PartsOf;
    OneCall(entries, boundary, answer);
    PartsAre(entries, parts);
  }

  /** The lines of the two known names. */
  function Known(lines: seq<string>): seq<string> {
    if lines == [] then []
    else
      var known := Begins(lines[0], "Content-Type:") || Begins(lines[0], "Content-Disposition:");
      (if known then [lines[0]] else []) + Known(lines[1..])
  }

  lemma {:induction false} KnownDecide(file: FileInfo, lines: seq<string>)
    ensures FileAfter(file, Known(lines)) == FileAfter(file, lines)
    decreases |lines|
  {
    hide ReadHeaderLine, Begins, Matches;
    if lines != [] {
      var line := lines[0];
      KnownDecide(ReadHeaderLine(file, line), lines[1..]);
      if Begins(line, "Content-Type:") || Begins(line, "Content-Disposition:") {
        assert ([line] + Known(lines[1..]))[1..] == Known(lines[1..]);
      } else {
        forall name, filename ensures !Matches(line, name, filename) {
          if Matches(line, name, filename) { MatchBegins(line, name, filename); }
        }
        LineMeaning(line, file);
        assert [] + Known(lines[1..]) == Known(lines[1..]);
      }
    }
  }

  lemma {:induction false} SameParts(entries: seq<Entry>, others: seq<Entry>)
    requires |entries| == |others|
    requires forall i :: 0 <= i < |entries| ==>
               Known(entries[i].lines) == Known(others[i].lines) && entries[i].content == others[i].content
    ensures PartsFor(entries) == PartsFor(others)
    decreases |entries|
  {
    hide FileAfter, Known;
    if entries != [] {
      KnownDecide(NO_FILE, entries[0].lines);
      KnownDecide(NO_FILE, others[0].lines);
      SameParts(entries[1..], others[1..]);
    }
  }

  /** Two bodies that differ only in header lines of other names are read as the same parts. */
  lemma {:induction false} OtherLinesChangeNothing(
    entries: seq<Entry>, others: seq<Entry>, boundary: string, answer: Callbacks)
    requires AllOk(entries, boundary) && AllOk(others, boundary) && |entries| == |others|
    requires forall i :: 0 <= i < |entries| ==>
               Known(entries[i].lines) == Known(others[i].lines) && entries[i].content == others[i].content
    requires FirstLinesFit(entries) && FirstLinesFit(others)
    requires Accepted(answer, Multipart.Parse(INITIAL, BodyText(entries, boundary), boundary, answer).0.calls, 0)
    requires Accepted(answer, Multipart.Parse(INITIAL, BodyText(others, boundary), boundary, answer).0.calls, 0)
    ensures var c := Multipart.Parse(INITIAL, BodyText(entries, boundary), boundary, answer).0;
            var c' := Multipart.Parse(INITIAL, BodyText(others, boundary), boundary, answer).0;
            c.valid && c'.valid && PartsOf(c.calls) == PartsOf(c'.calls)
  {
    hide Multipart.Parse, BodyText, PartsFor, PartsOf, FirstLinesFit, Known;
    OneCall(entries, boundary, answer);
    OneCall(others, boundary, answer);
    SameParts(entries, others);
  }
}
