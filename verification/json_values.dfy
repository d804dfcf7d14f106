/** From value trees to documents: every value the reader can build has a
    compact document denoting it, so the reader's round trip holds for
    values as well as for documents, and `Main.parse` of a written object,
    padded with whitespace, returns that object. */
module JsonValues {
  import opened Wrappers
  import opened JsonText
  import opened JsonNumber
  import opened JsonParser
  import opened TextAt
  import opened JsonDocument
  import opened JsonRoundTrip

  /** The values the reader can produce: no string or key holds a `"` (there
      are no escapes to write one) and every float lexeme is one the number
      production accepts. */
  ghost predicate Readable(v: Value)
    decreases v
  {
    match v
    case Obj(m) => forall k {:trigger m[k]} :: k in m ==> '"' !in k && Readable(m[k])
    case Arr(items) => forall i :: 0 <= i < |items| ==> Readable(items[i])
    case Str(t) => '"' !in t
    case Float(lex) => IsFloatLexeme(lex)
    case _ => true
  }

  /** Every value `parseValue` returns is readable: keys and strings are
      read up to the first quote, and a float is kept only when its lexeme
      passed the number production. */
  lemma {:induction false} ParsedReadable(s: string, i: nat)
    requires i <= |s|
    ensures ParseValue(s, i).Success? ==> Readable(ParseValue(s, i).value.0)
    decreases |s| - i, 2
  {
    var k := SkipWhitespace(s, i);
    if k < |s| {
      var c := s[k];
      if c == '{' {
        MembersReadable(s, SkipWhitespace(s, k + 1), map[]);
      } else if c == '[' {
        ElementsReadable(s, SkipWhitespace(s, k + 1), []);
      } else if c == '"' {
        ParseStringReads(s, k);
      } else if c != 't' && c != 'f' && c != 'n' && (IsDigit(c) || c == '-') {
        ParseNumberReads(s, k);
      }
    }
  }

  /** A member's key holds no quote and its value is readable. */
  lemma {:induction false} MemberReadable(s: string, i: nat)
    requires i < |s|
    ensures var r := ParseMember(s, i);
      r.Success? ==> '"' !in r.value.0 && Readable(r.value.1)
    decreases |s| - i, 3
  {
    ParseStringReads(s, i);
    if ParseString(s, i).Success? {
      var k := SkipWhitespace(s, ParseString(s, i).value.1);
      if k < |s| && s[k] == ':' {
        ParsedReadable(s, SkipWhitespace(s, k + 1));
      }
    }
  }

  /** The member loop, started on a readable map, ends on one. */
  lemma {:induction false} MembersReadable(s: string, i: nat, acc: map<string, Value>)
    requires i <= |s| && Readable(Obj(acc))
    ensures ParseMembers(s, i, acc).Success? ==> Readable(ParseMembers(s, i, acc).value.0)
    decreases |s| - i, 4
  {
    if i < |s| && s[i] != '}' {
      MemberReadable(s, i);
      if ParseMember(s, i).Success? {
        var (key, v, j) := ParseMember(s, i).value;
        var n := SkipWhitespace(s, j);
        if n < |s| {
          var next := if s[n] == ',' then SkipWhitespace(s, n + 1) else n;
          var acc' := acc[key := v];
          assert Readable(Obj(acc')) by {
            forall k | k in acc'
              ensures '"' !in k && Readable(acc'[k])
            {
              if k != key {
                assert acc'[k] == acc[k];
              }
            }
          }
          MembersReadable(s, next, acc');
        }
      }
    }
  }

  /** The element loop, started on readable elements, ends on a readable
      list. */
  lemma {:induction false} ElementsReadable(s: string, i: nat, acc: seq<Value>)
    requires i <= |s| && Readable(Arr(acc))
    ensures ParseElements(s, i, acc).Success? ==> Readable(ParseElements(s, i, acc).value.0)
    decreases |s| - i, 4
  {
    if i < |s| && s[i] != ']' {
      ParsedReadable(s, i);
      if ParseValue(s, i).Success? {
        var (v, j) := ParseValue(s, i).value;
        var n := SkipWhitespace(s, j);
        if n < |s| {
          var next := if s[n] == ',' then SkipWhitespace(s, n + 1) else n;
          assert Readable(Arr(acc + [v])) by {
            forall k | 0 <= k < |acc + [v]|
              ensures Readable((acc + [v])[k])
            {
              if k < |acc| {
                assert (acc + [v])[k] == acc[k];
              }
            }
          }
          ElementsReadable(s, next, acc + [v]);
        }
      }
    }
  }

  /** Some enumeration of the keys of a map, each exactly once. */
  ghost function KeyOrder(m: map<string, Value>): (ks: seq<string>)
    ensures |ks| == |m|
    ensures forall k :: k in ks <==> k in m
    decreases |m|
  {
    if |m| == 0 then []
    else
      var k :| k in m;
      var rest := m - {k};
      assert rest.Keys == m.Keys - {k};
      assert |rest.Keys| == |m.Keys| - 1;
      [k] + KeyOrder(rest)
  }

  /** A document for a value: elements in order, object members in
      `KeyOrder`. */
  ghost function DocOf(v: Value): Doc
    decreases v, 1
  {
    match v
    case Null => DNull
    case Bool(b) => DBool(b)
    case Int(n) => DInt(n)
    case Float(lex) => DFloat(lex)
    case Str(t) => DStr(t)
    case Arr(items) => DArr(DocsOf(items, v))
    case Obj(m) => DObj(MembersOf(m, KeyOrder(m), v))
  }

  ghost function DocsOf(items: seq<Value>, owner: Value): (ds: seq<Doc>)
    requires owner == Arr(items)
    ensures |ds| == |items|
    ensures forall i :: 0 <= i < |items| ==> ds[i] == DocOf(items[i])
    decreases owner, 0
  {
    seq(|items|, i requires 0 <= i < |items| => DocOf(items[i]))
  }

  ghost function MembersOf(m: map<string, Value>, ks: seq<string>, owner: Value): (ms: seq<(string, Doc)>)
    requires owner == Obj(m) && forall k :: k in ks ==> k in m
    ensures |ms| == |ks|
    ensures forall i :: 0 <= i < |ks| ==> ms[i] == (ks[i], DocOf(m[ks[i]]))
    decreases owner, 0
  {
    seq(|ks|, i requires 0 <= i < |ks| => (ks[i], DocOf(m[ks[i]])))
  }

  /** Reading the documents of `items[from..]` after the values of
      `items[..from]` gives all of `items`. */
  lemma {:induction false} DenoteItemsAll(acc: seq<Value>, ds: seq<Doc>, from: nat, owner: Doc, items: seq<Value>)
    requires owner == DArr(ds) && from <= |ds| == |items|
    requires forall i :: 0 <= i < |ds| ==> Denote(ds[i]) == items[i]
    requires acc == items[..from]
    ensures DenoteItems(acc, ds, from, owner) == items
    decreases |ds| - from
  {
    if from == |ds| {
      assert items[..from] == items;
    } else {
      assert items[..from] + [items[from]] == items[..from + 1];
      DenoteItemsAll(acc + [Denote(ds[from])], ds, from + 1, owner, items);
    }
  }

  /** Putting members whose values agree with `m` into a map that agrees
      with `m` keeps it in agreement with `m`, adds every member's key and
      loses none. */
  lemma {:induction false} DenoteMembersAgree(acc: map<string, Value>, ms: seq<(string, Doc)>, from: nat, owner: Doc, m: map<string, Value>)
    requires owner == DObj(ms) && from <= |ms|
    requires forall i :: 0 <= i < |ms| ==> ms[i].0 in m && Denote(ms[i].1) == m[ms[i].0]
    requires forall k :: k in acc ==> k in m && acc[k] == m[k]
    ensures var r := DenoteMembers(acc, ms, from, owner);
      && (forall k :: k in r ==> k in m && r[k] == m[k])
      && (forall k :: k in acc ==> k in r)
      && (forall i :: from <= i < |ms| ==> ms[i].0 in r)
    decreases |ms| - from
  {
    if from < |ms| {
      DenoteMembersAgree(acc[ms[from].0 := Denote(ms[from].1)], ms, from + 1, owner, m);
    }
  }

  /** Every readable value is denoted by its document, and that document is
      well formed. */
  lemma {:induction false} DocOfDenotes(v: Value)
    requires Readable(v)
    ensures WellFormed(DocOf(v)) && Denote(DocOf(v)) == v
    decreases v, 1
  {
    match v
    case Arr(items) => ArrayDocDenotes(v);
    case Obj(m) => ObjectDocDenotes(v);
    case _ =>
  }

  lemma {:induction false} ArrayDocDenotes(v: Value)
    requires v.Arr? && Readable(v)
    ensures WellFormed(DocOf(v)) && Denote(DocOf(v)) == v
    decreases v, 0
  {
    var items := v.items;
    var ds := DocsOf(items, v);
    forall i | 0 <= i < |items|
      ensures WellFormed(ds[i]) && Denote(ds[i]) == items[i]
    {
      DocOfDenotes(items[i]);
    }
    DenoteItemsAll([], ds, 0, DArr(ds), items);
  }

  lemma {:induction false} ObjectDocDenotes(v: Value)
    requires v.Obj? && Readable(v)
    ensures WellFormed(DocOf(v)) && Denote(DocOf(v)) == v
    decreases v, 0
  {
    var m := v.fields;
    var ks := KeyOrder(m);
    var ms := MembersOf(m, ks, v);
    forall i | 0 <= i < |ms|
      ensures '"' !in ms[i].0 && WellFormed(ms[i].1) && Denote(ms[i].1) == m[ms[i].0]
    {
      assert ks[i] in m;
      DocOfDenotes(m[ks[i]]);
    }
    MembersDenoteMap(m, ks, ms);
  }

  /** Members listing every key of `m` once, each with a value agreeing with
      `m`, denote `m` itself. */
  lemma MembersDenoteMap(m: map<string, Value>, ks: seq<string>, ms: seq<(string, Doc)>)
    requires forall k :: k in ks <==> k in m
    requires |ms| == |ks| && forall i :: 0 <= i < |ks| ==> ms[i].0 == ks[i]
    requires forall i :: 0 <= i < |ms| ==> ms[i].0 in m && Denote(ms[i].1) == m[ms[i].0]
    ensures DenoteMembers(map[], ms, 0, DObj(ms)) == m
  {
    var r := DenoteMembers(map[], ms, 0, DObj(ms));
    DenoteMembersAgree(map[], ms, 0, DObj(ms), m);
    forall k | k in m
      ensures k in r
    {
      var i :| 0 <= i < |ks| && ks[i] == k;
      assert ms[i].0 == k;
    }
  }

  /** The reader gives every readable value back from its document's text,
      wherever that text stands, provided it is followed by the end of the
      text or a character that cannot continue a number. */
  lemma ValueReadsBack(v: Value, s: string, p: nat)
    requires Readable(v)
    requires At(s, p, Write(DocOf(v))) && StopsNumber(s, p + |Write(DocOf(v))|)
    ensures ParseValue(s, p) == Success((v, p + |Write(DocOf(v))|))
  {
    var d := DocOf(v);
    DocOfDenotes(v);
    WriteParses(d, s, p);
    assert Denote(d) == v;
  }

  /** Every value the reader produces, from any text, is given back by the
      reader from its document's text, wherever that text stands, provided
      it is followed by the end of the text or a character that cannot
      continue a number. */
  lemma ParsedReadsBack(s: string, i: nat, t: string, p: nat)
    requires i <= |s| && ParseValue(s, i).Success?
    requires var w := Write(DocOf(ParseValue(s, i).value.0));
      At(t, p, w) && StopsNumber(t, p + |w|)
    ensures var v := ParseValue(s, i).value.0;
      ParseValue(t, p) == Success((v, p + |Write(DocOf(v))|))
  {
    ParsedReadable(s, i);
    ValueReadsBack(ParseValue(s, i).value.0, t, p);
  }

  /** `Main.parse` of an object's document, padded with any characters
      `trim` removes, returns the map the document denotes; in particular
      a key written twice keeps its last value. */
  lemma ParseDocument(d: Doc, pre: string, post: string)
    requires d.DObj? && WellFormed(d)
    requires AllTrimmable(pre) && AllTrimmable(post)
    ensures Denote(d).Obj?
    ensures Parse(pre + Write(d) + post) == Success(Some(Denote(d).fields))
  {
    ObjectTrims(d, pre, post);
    WholeParses(d);
  }

  /** An object's text has braces at both ends, so `trim` strips exactly the
      padding around it. */
  lemma ObjectTrims(d: Doc, pre: string, post: string)
    requires d.DObj?
    requires AllTrimmable(pre) && AllTrimmable(post)
    ensures Trim(pre + Write(d) + post) == Write(d)
  {
    var w := Write(d);
    assert w == "{" + WriteMembers(d.members, 0, d) + "}";
    TrimPadding(pre, w, post);
  }

  /** A document's text on its own reads back as the document's value. */
  lemma WholeParses(d: Doc)
    requires WellFormed(d)
    ensures ParseValue(Write(d), 0) == Success((Denote(d), |Write(d)|))
  {
    IndexAt(Write(d), 0, Write(d));
    WriteParses(d, Write(d), 0);
  }

  /** `Main.parse` of a readable object's text, padded with trimmable
      characters, returns the object. */
  lemma ParseWritten(m: map<string, Value>, pre: string, post: string)
    requires Readable(Obj(m))
    requires AllTrimmable(pre) && AllTrimmable(post)
    ensures Parse(pre + Write(DocOf(Obj(m))) + post) == Success(Some(m))
  {
    DocOfDenotes(Obj(m));
    ParseDocument(DocOf(Obj(m)), pre, post);
  }
}
