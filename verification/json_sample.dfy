/** The test document of `Main.main` in the JSON reader, built line by line
    as the source builds it, and what `parse` returns for it. */
module JsonSample {
  import opened Wrappers
  import opened JsonText
  import opened JsonNumber
  import opened JsonParser
  import opened TextAt
  import opened JsonDocument
  import opened JsonRoundTrip
  import opened JsonLayout
  import opened JsonValues

  const Line1: string := "{\n"
  const Line2: string := "\"debug\" : \"on\",\n"
  const Line3: string := "\"window\" : {\n"
  const Line4: string := "    \"title\" : \"sample\",\n"
  const Line5: string := "    \"size\": 500\n"
  const Line6: string := "}\n"
  const Line7: string := "}"

  const Sample: string := Line1 + Line2 + Line3 + Line4 + Line5 + Line6 + Line7

  /** The maps the three assertions of `main` inspect. */
  const Window: map<string, Value> := map["title" := Str("sample"), "size" := Int(500)]
  const Expected: map<string, Value> := map["debug" := Str("on"), "window" := Obj(Window)]

  /** The sample's layout, stated line by line: each line where it stands.
      Only the sample text itself has it; stating it per line lets the proof
      read one line at a time. */
  ghost predicate Layout(s: string) {
    && |s| == 74
    && At(s, 0, Line1) && At(s, 2, Line2) && At(s, 18, Line3)
    && At(s, 31, Line4) && At(s, 55, Line5) && At(s, 71, Line6)
    && At(s, 73, Line7)
  }

  /** The sample is laid out as its lines say. */
  lemma SampleLines()
    ensures Layout(Sample)
  {
    IndexAt(Sample, 0, Sample);
    SevenLines(Sample, Line1, Line2, Line3, Line4, Line5, Line6, Line7);
  }

  /** Seven texts one after the other, each where the ones before it end. */
  lemma SevenLines(s: string, a: string, b: string, c: string, d: string, e: string, f: string, g: string)
    requires At(s, 0, a + b + c + d + e + f + g)
    ensures At(s, 0, a) && At(s, |a|, b) && At(s, |a + b|, c) && At(s, |a + b + c|, d)
    ensures At(s, |a + b + c + d|, e) && At(s, |a + b + c + d + e|, f)
    ensures At(s, |a + b + c + d + e + f|, g)
  {
    AtSplit(s, 0, a + b + c + d + e + f, g);
    AtSplit(s, 0, a + b + c + d + e, f);
    AtSplit(s, 0, a + b + c + d, e);
    AtSplit(s, 0, a + b + c, d);
    AtSplit(s, 0, a + b, c);
    AtSplit(s, 0, a, b);
  }

  /** Four texts one after the other. */
  lemma AtFour(s: string, p: nat, a: string, b: string, c: string, d: string)
    requires At(s, p, a + (b + (c + d)))
    ensures At(s, p, a) && At(s, p + |a|, b) && At(s, p + |a| + |b|, c)
    ensures At(s, p + |a| + |b| + |c|, d)
  {
    AtSplit(s, p, a, b + (c + d));
    AtSplit(s, p + |a|, b, c + d);
    AtSplit(s, p + |a| + |b|, c, d);
  }

  /** The tokens of each line, where they stand in a text laid out like the
      sample. */
  lemma OuterTokens(s: string)
    requires Layout(s)
    ensures At(s, 0, "{") && At(s, 1, "\n")
    ensures At(s, 2, MemberHead("debug", " ", " ")) && At(s, 12, "\"on\"") && At(s, 16, ",") && At(s, 17, "\n")
    ensures At(s, 18, MemberHead("window", " ", " ")) && At(s, 29, "{") && At(s, 30, "\n")
    ensures At(s, 71, "}") && At(s, 72, "\n") && At(s, 73, "}")
  {
    assert Line1 == "{" + "\n";
    AtSplit(s, 0, "{", "\n");
    assert MemberHead("debug", " ", " ") == "\"debug\" : ";
    assert Line2 == MemberHead("debug", " ", " ") + ("\"on\"" + ("," + "\n"));
    AtFour(s, 2, MemberHead("debug", " ", " "), "\"on\"", ",", "\n");
    assert MemberHead("window", " ", " ") == "\"window\" : ";
    assert Line3 == MemberHead("window", " ", " ") + ("{" + "\n");
    AtSplit(s, 18, MemberHead("window", " ", " "), "{" + "\n");
    AtSplit(s, 29, "{", "\n");
    assert Line6 == "}" + "\n";
    AtSplit(s, 71, "}", "\n");
  }

  lemma InnerTokens(s: string)
    requires Layout(s)
    ensures At(s, 31, "    ") && At(s, 35, MemberHead("title", " ", " ")) && At(s, 45, "\"sample\"")
    ensures At(s, 53, ",") && At(s, 54, "\n")
    ensures At(s, 55, "    ") && At(s, 59, MemberHead("size", "", " ")) && At(s, 67, "500") && At(s, 70, "\n")
  {
    assert MemberHead("title", " ", " ") == "\"title\" : ";
    assert Line4 == "    " + (MemberHead("title", " ", " ") + ("\"sample\"" + ("," + "\n")));
    AtFour(s, 31, "    ", MemberHead("title", " ", " "), "\"sample\"", "," + "\n");
    AtSplit(s, 53, ",", "\n");
    assert MemberHead("size", "", " ") == "\"size\": ";
    assert Line5 == "    " + (MemberHead("size", "", " ") + ("500" + "\n"));
    AtFour(s, 55, "    ", MemberHead("size", "", " "), "500", "\n");
  }

  /** A token and a following token that stops a number. */
  lemma StopsBefore(s: string, p: nat, w: string, next: string)
    requires At(s, p + |w|, next) && |next| > 0 && !IsNumberChar(next[0])
    ensures StopsNumber(s, p + |w|)
  {
    AtHead(s, p + |w|, next);
  }

  /** `"size": 500` on the fifth line, then a line break and the inner
      closing brace. */
  lemma SizeCloses(s: string)
    requires Layout(s)
    ensures ParseMembers(s, 59, map["title" := Str("sample")]) == Success((Obj(Window), 72))
  {
    InnerTokens(s);
    OuterTokens(s);
    assert Write(DInt(500)) == "500";
    StopsBefore(s, 67, "500", "\n");
    ScalarParses(DInt(500), s, 67);
    AtHead(s, 67, "500");
    MemberAt(s, 59, "size", "", " ", Int(500), 70);
    AtClosed(s, 70, "\n", "}");
    AtHead(s, 59, MemberHead("size", "", " "));
    MembersGapClose(s, 59, map["title" := Str("sample")], "size", Int(500), 70, "\n");
  }

  /** `"title" : "sample"` on the fourth line, then the comma and the next
      line's indentation. */
  lemma TitleThenSize(s: string)
    requires Layout(s)
    ensures ParseMembers(s, 35, map[]) == ParseMembers(s, 59, map["title" := Str("sample")])
  {
    InnerTokens(s);
    assert Write(DStr("sample")) == "\"sample\"";
    StopsBefore(s, 45, "\"sample\"", ",");
    ScalarParses(DStr("sample"), s, 45);
    AtHead(s, 45, "\"sample\"");
    MemberAt(s, 35, "title", " ", " ", Str("sample"), 53);
    AtClosed(s, 54, "\n", "    ");
    AtClosed(s, 53, ",", "\n" + "    ");
    AtHead(s, 35, MemberHead("title", " ", " "));
    AtHead(s, 59, MemberHead("size", "", " "));
    MembersCommaGap(s, 35, map[], "title", Str("sample"), 53, "\n" + "    ");
  }

  /** The inner object, from the brace at the end of the third line to the
      brace on the sixth. */
  lemma WindowValue(s: string)
    requires Layout(s)
    ensures ParseValue(s, 29) == Success((Obj(Window), 72))
  {
    OuterTokens(s);
    InnerTokens(s);
    AtHead(s, 29, "{");
    AtHead(s, 35, MemberHead("title", " ", " "));
    AtClosed(s, 30, "\n", "    ");
    GapAt(s, 30, "\n" + "    ");
    SkipNothing(s, 29);
    TitleThenSize(s);
    SizeCloses(s);
  }

  /** `"debug" : "on",` on the second line and the line break after it. */
  lemma DebugThenWindow(s: string)
    requires Layout(s)
    ensures ParseMembers(s, 2, map[]) == ParseMembers(s, 18, map["debug" := Str("on")])
  {
    OuterTokens(s);
    assert Write(DStr("on")) == "\"on\"";
    StopsBefore(s, 12, "\"on\"", ",");
    ScalarParses(DStr("on"), s, 12);
    AtHead(s, 12, "\"on\"");
    MemberAt(s, 2, "debug", " ", " ", Str("on"), 16);
    AtHead(s, 2, MemberHead("debug", " ", " "));
    AtHead(s, 18, MemberHead("window", " ", " "));
    AtClosed(s, 16, ",", "\n");
    MembersCommaGap(s, 2, map[], "debug", Str("on"), 16, "\n");
  }

  /** `"window" : {...}` and the line break and brace that close the
      document. */
  lemma WindowCloses(s: string)
    requires Layout(s)
    ensures ParseMembers(s, 18, map["debug" := Str("on")]) == Success((Obj(Expected), 74))
  {
    OuterTokens(s);
    AtHead(s, 29, "{");
    WindowValue(s);
    MemberAt(s, 18, "window", " ", " ", Obj(Window), 72);
    AtHead(s, 18, MemberHead("window", " ", " "));
    AtClosed(s, 72, "\n", "}");
    MembersGapClose(s, 18, map["debug" := Str("on")], "window", Obj(Window), 72, "\n");
  }

  /** The sample text, given by its lines, reads as the expected map. */
  lemma SampleReads(s: string)
    requires Layout(s)
    ensures Parse(s) == Success(Some(Expected))
  {
    SampleTrims(s);
    SampleValue(s);
  }

  /** The sample starts and ends with a brace, so `trim` keeps all of it. */
  lemma SampleTrims(s: string)
    requires Layout(s)
    ensures Trim(s) == s
  {
    OuterTokens(s);
    AtHead(s, 0, "{");
    AtHead(s, 73, "}");
    TrimPadding([], s, []);
    assert [] + s + [] == s;
  }

  /** The outer object spans the whole text. */
  lemma SampleValue(s: string)
    requires Layout(s)
    ensures ParseValue(s, 0) == Success((Obj(Expected), 74))
  {
    OuterTokens(s);
    AtHead(s, 0, "{");
    AtHead(s, 2, MemberHead("debug", " ", " "));
    GapAt(s, 1, "\n");
    SkipNothing(s, 0);
    DebugThenWindow(s);
    WindowCloses(s);
  }

  /** `Main.parse` returns the map `main` expects: `debug` is `"on"`,
      `window.title` is `"sample"` and `window.size` is the integer 500. */
  lemma SampleParses()
    ensures Parse(Sample) == Success(Some(Expected))
    ensures Expected["debug"] == Str("on")
    ensures Expected["window"].Obj? && Expected["window"].fields["title"] == Str("sample")
    ensures Expected["window"].fields["size"] == Int(500)
  {
    SampleLines();
    SampleReads(Sample);
  }

  /** A key written twice: `HashMap.put` keeps the later value. */
  const Twice: Doc := DObj([("a", DInt(1)), ("a", DInt(2))])

  lemma TwiceText()
    ensures Write(Twice) == "{\"a\":1,\"a\":2}" && WellFormed(Twice)
  {
    assert WriteMembers(Twice.members, 1, Twice) == "\"a\":2";
  }

  lemma TwiceValue()
    ensures Denote(Twice) == Obj(map["a" := Int(2)])
  {
    assert DenoteMembers(map[], Twice.members, 0, Twice)
        == DenoteMembers(map["a" := Int(1)], Twice.members, 1, Twice);
  }

  lemma LastKeyWins()
    ensures Parse("{\"a\":1,\"a\":2}") == Success(Some(map["a" := Int(2)]))
  {
    TwiceText();
    TwiceValue();
    assert [] + Write(Twice) + [] == Write(Twice);
    ParseDocument(Twice, [], []);
  }

  /** A well-formed document whose root is an array fails the cast to
      `Map`. */
  lemma ArrayRootRejected()
    ensures Parse("[1]") == Failure(NotAnObject)
  {
    OneElement();
    WholeParses(DArr([DInt(1)]));
  }

  lemma OneElement()
    ensures Write(DArr([DInt(1)])) == "[1]" && Trim("[1]") == "[1]"
  {
    assert Write(DArr([DInt(1)])) == "[1]";
    TrimPadding([], "[1]", []);
    assert [] + "[1]" + [] == "[1]";
  }

  /** A `null` root passes the cast and `parse` returns null. */
  lemma NullRootAccepted()
    ensures Parse(" null\n") == Success(None)
  {
    TrimPadding(" ", "null", "\n");
    assert " " + "null" + "\n" == " null\n";
    WholeParses(DNull);
  }

  /** A document of whitespace only runs into the end of the text. */
  lemma BlankRejected()
    ensures Parse(" \n ") == Failure(EndOfInput)
  {
    assert AllTrimmable(" \n ");
    ParseValueShape([], 0);
  }
}
