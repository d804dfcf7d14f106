/** The reader accepts every well-formed compact document, wherever it
    stands in a larger text as long as the text ends after it or goes on
    with a character that cannot continue a number, and builds exactly the
    value the document denotes. */
module JsonRoundTrip {
  import opened Wrappers
  import opened JsonText
  import opened JsonNumber
  import opened JsonParser
  import opened TextAt
  import opened JsonDocument

  /** A quoted text without inner quotes is read back by `parseString`. */
  lemma StringAt(s: string, p: nat, t: string)
    requires '"' !in t && At(s, p, "\"" + t + "\"")
    ensures ParseString(s, p) == Success((t, p + |t| + 2))
  {
    var w := "\"" + t + "\"";
    AtIndex(s, p, w);
    assert forall k :: 0 <= k < |t| ==> s[p + 1 + k] == w[1 + k] == t[k];
    assert forall m :: p + 1 <= m < p + 1 + |t| ==> s[m] == t[m - p - 1];
    assert forall m :: p + 1 <= m < p + 1 + |t| ==> s[m] != '"';
    assert s[p + 1 + |t|] == w[|t| + 1] == '"';
    FindQuoteAt(s, p + 1, p + 1 + |t|);
    assert s[p + 1..p + 1 + |t|] == t;
  }

  /** A run of number characters that stops where the text stops being
      numeric is exactly what `parseNumber` consumes. */
  lemma NumberAt(s: string, p: nat, lex: string)
    requires At(s, p, lex) && StopsNumber(s, p + |lex|)
    requires forall k :: 0 <= k < |lex| ==> IsNumberChar(lex[k])
    ensures NumberEnd(s, p) == p + |lex|
    ensures s[p..p + |lex|] == lex
  {
    AtSlice(s, p, lex);
    assert forall k :: p <= k < p + |lex| ==> s[k] == lex[k - p];
    NumberEndAt(s, p, p + |lex|);
  }

  /** A text that does not start with whitespace needs no skipping. */
  lemma OpenAt(s: string, p: nat, w: string)
    requires At(s, p, w) && |w| > 0 && !IsWhitespace(w[0])
    ensures p < |s| && s[p] == w[0] && SkipWhitespace(s, p) == p
  {
    AtHead(s, p, w);
    SkipNothing(s, p);
  }

  /** A part, a comma, and a rest that starts with a significant character:
      the comma stands right after the part and the rest right after the
      comma. */
  lemma CommaSplit(s: string, p: nat, head: string, rest: string)
    requires At(s, p, head + ("," + rest)) && |rest| > 0 && !IsWhitespace(rest[0])
    ensures var q := p + |head|;
      && At(s, p, head) && q < |s| && s[q] == ','
      && SkipWhitespace(s, q + 1) == q + 1 && At(s, q + 1, rest)
  {
    AtSplit(s, p, head, "," + rest);
    AtSplit(s, p + |head|, ",", rest);
    AtHead(s, p + |head|, ",");
    OpenAt(s, p + |head| + 1, rest);
  }

  /** A part followed by one closing character. */
  lemma CloseSplit(s: string, p: nat, head: string, close: string)
    requires |close| == 1 && At(s, p, head + close)
    ensures At(s, p, head) && p + |head| < |s| && s[p + |head|] == close[0]
  {
    AtSplit(s, p, head, close);
    AtHead(s, p + |head|, close);
  }

  lemma ArrayDispatch(s: string, p: nat)
    requires p < |s| && s[p] == '['
    ensures ParseValue(s, p) == ParseElements(s, SkipWhitespace(s, p + 1), [])
  {
    assert !IsWhitespace(s[p]);
    assert SkipWhitespace(s, p) == p;
    assert ParseArray(s, p) == ParseElements(s, SkipWhitespace(s, p + 1), []);
  }

  lemma ObjectDispatch(s: string, p: nat)
    requires p < |s| && s[p] == '{'
    ensures ParseValue(s, p) == ParseMembers(s, SkipWhitespace(s, p + 1), map[])
  {
  }

  /** `null`, `true` and `false` are read by their literal productions. */
  lemma LiteralParses(d: Doc, s: string, p: nat)
    requires d.DNull? || d.DBool?
    requires At(s, p, Write(d))
    ensures ParseValue(s, p) == Success((Denote(d), p + |Write(d)|))
  {
    var w := Write(d);
    AtHead(s, p, w);
    SkipNothing(s, p);
    if d == DBool(false) {
      assert !At(s, p, "true") by {
        if At(s, p, "true") {
          AtHead(s, p, "true");
        }
      }
    }
  }

  /** A number production that succeeds at a position where no whitespace
      stands is what `parseValue` returns there. */
  lemma NumberDispatch(s: string, p: nat, v: Value, e: nat)
    requires p < |s| && (IsDigit(s[p]) || s[p] == '-')
    requires ParseNumber(s, p) == Success((v, e))
    ensures ParseValue(s, p) == Success((v, e))
  {
    SkipNothing(s, p);
    assert s[p] != '{' && s[p] != '[' && s[p] != '"' && s[p] != 't' && s[p] != 'f' && s[p] != 'n';
  }

  /** An integer is written by `ShowInt` and read back by the integer
      branch of `parseNumber`. */
  lemma IntParses(d: Doc, s: string, p: nat)
    requires d.DInt?
    requires At(s, p, Write(d)) && StopsNumber(s, p + |Write(d)|)
    ensures ParseValue(s, p) == Success((Denote(d), p + |Write(d)|))
  {
    IntNumber(d.n, s, p);
    NumberDispatch(s, p, Int(d.n), p + |ShowInt(d.n)|);
  }

  lemma IntNumber(n: int32, s: string, p: nat)
    requires At(s, p, ShowInt(n)) && StopsNumber(s, p + |ShowInt(n)|)
    ensures p < |s| && (IsDigit(s[p]) || s[p] == '-')
    ensures ParseNumber(s, p) == Success((Int(n), p + |ShowInt(n)|))
  {
    var r := ShowInt(n);
    ShowIntChars(n);
    AtHead(s, p, r);
    NumberAt(s, p, r);
    ParseShowInt(n);
  }

  /** A float lexeme is read back verbatim by the float branch. */
  lemma FloatParses(d: Doc, s: string, p: nat)
    requires d.DFloat? && IsFloatLexeme(d.lexeme)
    requires At(s, p, Write(d)) && StopsNumber(s, p + |Write(d)|)
    ensures ParseValue(s, p) == Success((Denote(d), p + |Write(d)|))
  {
    FloatNumber(d.lexeme, s, p);
    NumberDispatch(s, p, Float(d.lexeme), p + |d.lexeme|);
  }

  lemma FloatNumber(lex: string, s: string, p: nat)
    requires IsFloatLexeme(lex)
    requires At(s, p, lex) && StopsNumber(s, p + |lex|)
    ensures p < |s| && (IsDigit(s[p]) || s[p] == '-')
    ensures ParseNumber(s, p) == Success((Float(lex), p + |lex|))
  {
    AtHead(s, p, lex);
    NumberAt(s, p, lex);
  }

  /** A quoted text without inner quotes is read back as that text. */
  lemma StrParses(d: Doc, s: string, p: nat)
    requires d.DStr? && '"' !in d.text
    requires At(s, p, Write(d))
    ensures ParseValue(s, p) == Success((Denote(d), p + |Write(d)|))
  {
    var t := d.text;
    assert Write(d) == "\"" + t + "\"";
    AtHead(s, p, "\"" + t + "\"");
    SkipNothing(s, p);
    StringAt(s, p, t);
  }

  /** The reader accepts the text of every well-formed document, wherever it
      stands in a larger text, provided that text ends right after it or goes
      on with a character that cannot continue a number (`1` in `12` reads
      as `12`), and returns the value the document denotes with the cursor
      just past the text. */
  lemma {:induction false} WriteParses(d: Doc, s: string, p: nat)
    requires WellFormed(d)
    requires At(s, p, Write(d)) && StopsNumber(s, p + |Write(d)|)
    ensures ParseValue(s, p) == Success((Denote(d), p + |Write(d)|))
    decreases d, 3, 0, 0
  {
    if d.DArr? {
      ArrayParses(d, s, p);
    } else if d.DObj? {
      ObjectParses(d, s, p);
    } else {
      ScalarParses(d, s, p);
    }
  }

  /** The documents without parts are read by a single production. */
  lemma ScalarParses(d: Doc, s: string, p: nat)
    requires !d.DArr? && !d.DObj? && WellFormed(d)
    requires At(s, p, Write(d)) && StopsNumber(s, p + |Write(d)|)
    ensures ParseValue(s, p) == Success((Denote(d), p + |Write(d)|))
  {
    if d.DNull? || d.DBool? {
      LiteralParses(d, s, p);
    } else if d.DInt? {
      IntParses(d, s, p);
    } else if d.DFloat? {
      FloatParses(d, s, p);
    } else {
      StrParses(d, s, p);
    }
  }

  lemma {:induction false} ArrayParses(d: Doc, s: string, p: nat)
    requires d.DArr? && WellFormed(d)
    requires At(s, p, Write(d))
    ensures ParseValue(s, p) == Success((Denote(d), p + |Write(d)|))
    decreases d, 2, 0, 0
  {
    ArrayOpens(d, s, p);
    ItemsParse(d.items, 0, d, s, p + 1, []);
    assert p + 1 + |WriteItems(d.items, 0, d)| + 1 == p + |Write(d)|;
  }

  /** The opening bracket hands the rest of the text to the element loop. */
  lemma ArrayOpens(d: Doc, s: string, p: nat)
    requires d.DArr? && WellFormed(d)
    requires At(s, p, Write(d))
    ensures ParseValue(s, p) == ParseElements(s, p + 1, [])
    ensures At(s, p + 1, WriteItems(d.items, 0, d) + "]")
    ensures |Write(d)| == |WriteItems(d.items, 0, d)| + 2
    ensures Denote(d) == Arr(DenoteItems([], d.items, 0, d))
  {
    var body := WriteItems(d.items, 0, d) + "]";
    assert Write(d) == "[" + body;
    AtSplit(s, p, "[", body);
    AtHead(s, p, "[");
    ArrayDispatch(s, p);
    ItemsOpen(d.items, 0, d);
    OpenAt(s, p + 1, body);
  }

  lemma {:induction false} ObjectParses(d: Doc, s: string, p: nat)
    requires d.DObj? && WellFormed(d)
    requires At(s, p, Write(d))
    ensures ParseValue(s, p) == Success((Denote(d), p + |Write(d)|))
    decreases d, 2, 0, 0
  {
    ObjectOpens(d, s, p);
    MembersParse(d.members, 0, d, s, p + 1, map[]);
    assert p + 1 + |WriteMembers(d.members, 0, d)| + 1 == p + |Write(d)|;
  }

  /** The opening brace hands the rest of the text to the member loop. */
  lemma ObjectOpens(d: Doc, s: string, p: nat)
    requires d.DObj? && WellFormed(d)
    requires At(s, p, Write(d))
    ensures ParseValue(s, p) == ParseMembers(s, p + 1, map[])
    ensures At(s, p + 1, WriteMembers(d.members, 0, d) + "}")
    ensures |Write(d)| == |WriteMembers(d.members, 0, d)| + 2
    ensures Denote(d) == Obj(DenoteMembers(map[], d.members, 0, d))
  {
    var body := WriteMembers(d.members, 0, d) + "}";
    assert Write(d) == "{" + body;
    AtSplit(s, p, "{", body);
    AtHead(s, p, "{");
    ObjectDispatch(s, p);
    MembersOpen(d.members, 0, d);
    OpenAt(s, p + 1, body);
  }

  /** An element followed by a comma: the element's text, then the rest of
      the list and the closing bracket just after the comma. */
  lemma ItemsMore(items: seq<Doc>, from: nat, owner: Doc, s: string, p: nat)
    requires owner == DArr(items) && from + 1 < |items|
    requires WellFormed(owner)
    requires At(s, p, WriteItems(items, from, owner) + "]")
    ensures var q := p + |Write(items[from])|;
      && At(s, p, Write(items[from])) && StopsNumber(s, q) && s[p] != ']'
      && q < |s| && s[q] == ',' && SkipWhitespace(s, q + 1) == q + 1
      && At(s, q + 1, WriteItems(items, from + 1, owner) + "]")
      && |WriteItems(items, from, owner)| == |Write(items[from])| + 1 + |WriteItems(items, from + 1, owner)|
  {
    ItemsCons(items, from, owner);
    ItemsOpen(items, from + 1, owner);
    CommaSplit(s, p, Write(items[from]), WriteItems(items, from + 1, owner) + "]");
    WriteStart(items[from]);
    AtHead(s, p, Write(items[from]));
  }

  /** The last element: its text, then the closing bracket. */
  lemma ItemsLast(items: seq<Doc>, from: nat, owner: Doc, s: string, p: nat)
    requires owner == DArr(items) && from + 1 == |items|
    requires WellFormed(owner)
    requires At(s, p, WriteItems(items, from, owner) + "]")
    ensures var q := p + |Write(items[from])|;
      && At(s, p, Write(items[from])) && StopsNumber(s, q) && s[p] != ']'
      && q < |s| && s[q] == ']' && |WriteItems(items, from, owner)| == |Write(items[from])|
  {
    ItemsOne(items, from, owner);
    CloseSplit(s, p, Write(items[from]), "]");
    WriteStart(items[from]);
    AtHead(s, p, Write(items[from]));
  }

  /** The element loop, entered with the values `acc` read so far, reads
      the elements `items[from..]` and the closing bracket. */
  lemma {:induction false} ItemsParse(items: seq<Doc>, from: nat, owner: Doc, s: string, p: nat, acc: seq<Value>)
    requires owner == DArr(items) && from <= |items|
    requires WellFormed(owner)
    requires At(s, p, WriteItems(items, from, owner) + "]")
    ensures ParseElements(s, p, acc)
         == Success((Arr(DenoteItems(acc, items, from, owner)), p + |WriteItems(items, from, owner)| + 1))
    decreases owner, 1, |items| - from, 2
  {
    if from == |items| {
      ItemsEnd(items, from, owner);
      AtHead(s, p, "]");
      ElementsClose(s, p, acc);
    } else if from + 1 < |items| {
      MoreItemsParse(items, from, owner, s, p, acc);
    } else {
      LastItemParses(items, from, owner, s, p, acc);
    }
  }

  /** An element followed by a comma: it is read, then the loop goes on. */
  lemma {:induction false} MoreItemsParse(items: seq<Doc>, from: nat, owner: Doc, s: string, p: nat, acc: seq<Value>)
    requires owner == DArr(items) && from + 1 < |items|
    requires WellFormed(owner)
    requires At(s, p, WriteItems(items, from, owner) + "]")
    ensures ParseElements(s, p, acc)
         == Success((Arr(DenoteItems(acc, items, from, owner)), p + |WriteItems(items, from, owner)| + 1))
    decreases owner, 1, |items| - from, 1
  {
    var q := p + |Write(items[from])|;
    var more := acc + [Denote(items[from])];
    ItemThenComma(items, from, owner, s, p, acc, q);
    ItemsParse(items, from + 1, owner, s, q + 1, more);
    DenoteItemsStep(acc, items, from, owner);
    assert q + 1 + |WriteItems(items, from + 1, owner)| + 1 == p + |WriteItems(items, from, owner)| + 1;
  }

  /** An element and the comma after it take the element loop to the next
      element with one more value in its list. */
  lemma ItemThenComma(items: seq<Doc>, from: nat, owner: Doc, s: string, p: nat, acc: seq<Value>, q: nat)
    requires owner == DArr(items) && from + 1 < |items|
    requires WellFormed(owner)
    requires At(s, p, WriteItems(items, from, owner) + "]")
    requires q == p + |Write(items[from])|
    ensures
      && ParseElements(s, p, acc) == ParseElements(s, q + 1, acc + [Denote(items[from])])
      && At(s, q + 1, WriteItems(items, from + 1, owner) + "]")
      && |WriteItems(items, from, owner)| == |Write(items[from])| + 1 + |WriteItems(items, from + 1, owner)|
    decreases owner, 1, |items| - from, 0
  {
    ItemsMore(items, from, owner, s, p);
    WriteParses(items[from], s, p);
    ElementsComma(s, p, acc, Denote(items[from]), q);
  }

  /** The last element: it is read, then the closing bracket ends the loop. */
  lemma LastItemParses(items: seq<Doc>, from: nat, owner: Doc, s: string, p: nat, acc: seq<Value>)
    requires owner == DArr(items) && from + 1 == |items|
    requires WellFormed(owner)
    requires At(s, p, WriteItems(items, from, owner) + "]")
    ensures ParseElements(s, p, acc)
         == Success((Arr(DenoteItems(acc, items, from, owner)), p + |WriteItems(items, from, owner)| + 1))
    decreases owner, 1, |items| - from, 1
  {
    var x := items[from];
    var q := p + |Write(x)|;
    ItemsLast(items, from, owner, s, p);
    WriteParses(x, s, p);
    ElementsLast(s, p, acc, Denote(x), q);
    assert DenoteItems(acc + [Denote(x)], items, from + 1, owner) == acc + [Denote(x)];
  }

  /** A quoted key and its colon, followed by a value's text. */
  lemma KeyAt(s: string, p: nat, key: string, w: string)
    requires '"' !in key && |w| > 0 && !IsWhitespace(w[0])
    requires At(s, p, MemberText(key, w))
    ensures var c := p + |key| + 2;
      && p < |s| && s[p] == '"'
      && ParseString(s, p) == Success((key, c))
      && c < |s| && s[c] == ':' && SkipWhitespace(s, c) == c
      && SkipWhitespace(s, c + 1) == c + 1 && At(s, c + 1, w)
  {
    var quoted := "\"" + key + "\"";
    assert MemberText(key, w) == quoted + ":" + w;
    AtSplit(s, p, quoted + ":", w);
    AtSplit(s, p, quoted, ":");
    StringAt(s, p, key);
    AtHead(s, p, quoted);
    var c := p + |quoted|;
    AtHead(s, c, ":");
    PunctuationIsNotWhitespace(s[c]);
    SkipNothing(s, c);
    AtHead(s, c + 1, w);
    SkipNothing(s, c + 1);
  }

  /** The value of a member starts just after the key's quotes and the colon. */
  lemma MemberValueAt(s: string, p: nat, key: string, w: string)
    requires At(s, p, MemberText(key, w))
    ensures At(s, p + |key| + 3, w) && |MemberText(key, w)| == |key| + 3 + |w|
  {
    assert MemberText(key, w) == "\"" + key + "\"" + ":" + w;
    AtSplit(s, p, "\"" + key + "\"" + ":", w);
  }

  /** One member read by the loop body of `parseObject`, wherever it stands. */
  lemma MemberParses(s: string, p: nat, key: string, x: Doc, q: nat)
    requires '"' !in key && WellFormed(x)
    requires At(s, p, MemberText(key, Write(x))) && q == p + |key| + 3 + |Write(x)|
    requires ParseValue(s, p + |key| + 3) == Success((Denote(x), q))
    ensures ParseMember(s, p) == Success((key, Denote(x), q))
  {
    WriteLead(x);
    KeyAt(s, p, key, Write(x));
    MemberParts(s, p, key, p + |key| + 2, Denote(x), q);
  }

  /** One member, followed by a comma or the closing brace, is read back as
      its key and the value it denotes. */
  lemma MemberReads(ms: seq<(string, Doc)>, from: nat, owner: Doc, s: string, p: nat)
    requires owner == DObj(ms) && from < |ms|
    requires WellFormed(owner)
    requires At(s, p, MemberText(ms[from].0, Write(ms[from].1)))
    requires var q := p + |ms[from].0| + 3 + |Write(ms[from].1)|;
      q < |s| && (s[q] == ',' || s[q] == '}')
    ensures ParseMember(s, p) == Success((ms[from].0, Denote(ms[from].1), p + |ms[from].0| + 3 + |Write(ms[from].1)|))
    decreases owner, 1, |ms| - from, 0
  {
    var (key, x) := ms[from];
    MemberValueAt(s, p, key, Write(x));
    WriteParses(x, s, p + |key| + 3);
    MemberParses(s, p, key, x, p + |key| + 3 + |Write(x)|);
  }

  /** A member followed by a comma: key, colon and value, then the rest of
      the list and the closing brace just after the comma. */
  lemma MembersMore(ms: seq<(string, Doc)>, from: nat, owner: Doc, s: string, p: nat)
    requires owner == DObj(ms) && from + 1 < |ms|
    requires At(s, p, WriteMembers(ms, from, owner) + "}")
    ensures var q := p + |ms[from].0| + 3 + |Write(ms[from].1)|;
      && At(s, p, MemberText(ms[from].0, Write(ms[from].1))) && p < |s| && s[p] == '"'
      && q < |s| && s[q] == ',' && SkipWhitespace(s, q + 1) == q + 1
      && At(s, q + 1, WriteMembers(ms, from + 1, owner) + "}")
      && p + |WriteMembers(ms, from, owner)| == q + |WriteMembers(ms, from + 1, owner)| + 1
  {
    MembersCons(ms, from, owner);
    MembersOpen(ms, from + 1, owner);
    var head := MemberText(ms[from].0, Write(ms[from].1));
    CommaSplit(s, p, head, WriteMembers(ms, from + 1, owner) + "}");
    AtHead(s, p, head);
  }

  /** The last member: key, colon and value, then the closing brace. */
  lemma MembersLastAt(ms: seq<(string, Doc)>, from: nat, owner: Doc, s: string, p: nat)
    requires owner == DObj(ms) && from + 1 == |ms|
    requires At(s, p, WriteMembers(ms, from, owner) + "}")
    ensures var q := p + |ms[from].0| + 3 + |Write(ms[from].1)|;
      && At(s, p, MemberText(ms[from].0, Write(ms[from].1))) && p < |s| && s[p] == '"'
      && q < |s| && s[q] == '}' && p + |WriteMembers(ms, from, owner)| == q
  {
    MembersOne(ms, from, owner);
    var head := MemberText(ms[from].0, Write(ms[from].1));
    CloseSplit(s, p, head, "}");
    AtHead(s, p, head);
  }

  /** The member loop, entered with the map `acc` built so far, reads the
      members `ms[from..]` and the closing brace. */
  lemma {:induction false} MembersParse(ms: seq<(string, Doc)>, from: nat, owner: Doc, s: string, p: nat, acc: map<string, Value>)
    requires owner == DObj(ms) && from <= |ms|
    requires WellFormed(owner)
    requires At(s, p, WriteMembers(ms, from, owner) + "}")
    ensures ParseMembers(s, p, acc)
         == Success((Obj(DenoteMembers(acc, ms, from, owner)), p + |WriteMembers(ms, from, owner)| + 1))
    decreases owner, 1, |ms| - from, 3
  {
    if from == |ms| {
      MembersEnd(ms, from, owner);
      AtHead(s, p, "}");
      MembersClose(s, p, acc);
    } else if from + 1 < |ms| {
      MoreMembersParse(ms, from, owner, s, p, acc);
    } else {
      LastMemberParses(ms, from, owner, s, p, acc);
    }
  }

  /** A member followed by a comma: it is read, then the loop goes on. */
  lemma {:induction false} MoreMembersParse(ms: seq<(string, Doc)>, from: nat, owner: Doc, s: string, p: nat, acc: map<string, Value>)
    requires owner == DObj(ms) && from + 1 < |ms|
    requires WellFormed(owner)
    requires At(s, p, WriteMembers(ms, from, owner) + "}")
    ensures ParseMembers(s, p, acc)
         == Success((Obj(DenoteMembers(acc, ms, from, owner)), p + |WriteMembers(ms, from, owner)| + 1))
    decreases owner, 1, |ms| - from, 2
  {
    var q := p + |ms[from].0| + 3 + |Write(ms[from].1)|;
    var more := acc[ms[from].0 := Denote(ms[from].1)];
    MemberThenComma(ms, from, owner, s, p, acc, q);
    MembersParse(ms, from + 1, owner, s, q + 1, more);
    DenoteMembersStep(acc, ms, from, owner);
    assert q + 1 + |WriteMembers(ms, from + 1, owner)| + 1 == p + |WriteMembers(ms, from, owner)| + 1;
  }

  /** A member and the comma after it take the member loop to the next
      member with one more entry in its map. */
  lemma MemberThenComma(ms: seq<(string, Doc)>, from: nat, owner: Doc, s: string, p: nat, acc: map<string, Value>, q: nat)
    requires owner == DObj(ms) && from + 1 < |ms|
    requires WellFormed(owner)
    requires At(s, p, WriteMembers(ms, from, owner) + "}")
    requires q == p + |ms[from].0| + 3 + |Write(ms[from].1)|
    ensures
      && ParseMembers(s, p, acc) == ParseMembers(s, q + 1, acc[ms[from].0 := Denote(ms[from].1)])
      && At(s, q + 1, WriteMembers(ms, from + 1, owner) + "}")
      && p + |WriteMembers(ms, from, owner)| == q + |WriteMembers(ms, from + 1, owner)| + 1
    decreases owner, 1, |ms| - from, 1
  {
    MembersMore(ms, from, owner, s, p);
    MemberReads(ms, from, owner, s, p);
    MembersComma(s, p, acc, ms[from].0, Denote(ms[from].1), q);
  }

  /** The last member: it is read, then the closing brace ends the loop. */
  lemma LastMemberParses(ms: seq<(string, Doc)>, from: nat, owner: Doc, s: string, p: nat, acc: map<string, Value>)
    requires owner == DObj(ms) && from + 1 == |ms|
    requires WellFormed(owner)
    requires At(s, p, WriteMembers(ms, from, owner) + "}")
    ensures ParseMembers(s, p, acc)
         == Success((Obj(DenoteMembers(acc, ms, from, owner)), p + |WriteMembers(ms, from, owner)| + 1))
    decreases owner, 1, |ms| - from, 2
  {
    var (key, x) := ms[from];
    var q := p + |key| + 3 + |Write(x)|;
    MembersLastAt(ms, from, owner, s, p);
    MemberReads(ms, from, owner, s, p);
    MembersLast(s, p, acc, key, Denote(x), q);
    assert DenoteMembers(acc[key := Denote(x)], ms, from + 1, owner) == acc[key := Denote(x)];
  }
}
