/** Compact JSON documents: the syntax the reader's productions recognise,
    written without whitespace, and the value each one denotes. The
    repository has no JSON writer; `Write` is a specification device that
    pins down which texts the reader accepts, not a model of code. */
module JsonDocument {
  import opened JsonText
  import opened JsonNumber
  import opened JsonParser

  /** A document as written: object members in the order they appear,
      repeated keys allowed. */
  datatype Doc =
    | DNull
    | DBool(b: bool)
    | DInt(n: int32)
    | DFloat(lexeme: string)
    | DStr(text: string)
    | DArr(items: seq<Doc>)
    | DObj(members: seq<(string, Doc)>)

  /** The lexemes the float branch of `parseNumber` can deliver: a run of
      number characters that starts like a number, holds a point and is
      accepted by `Double.parseDouble`. */
  predicate IsFloatLexeme(lex: string) {
    && |lex| > 0
    && (IsDigit(lex[0]) || lex[0] == '-')
    && (forall k :: 0 <= k < |lex| ==> IsNumberChar(lex[k]))
    && '.' in lex
    && IsDoubleLexeme(lex)
  }

  /** The documents that can be written at all: no string or key holds a `"`
      (the reader has no escapes) and every float lexeme is one the number
      production accepts. */
  predicate WellFormed(d: Doc)
    decreases d
  {
    match d
    case DObj(ms) => forall i :: 0 <= i < |ms| ==> '"' !in ms[i].0 && WellFormed(ms[i].1)
    case DArr(items) => forall i :: 0 <= i < |items| ==> WellFormed(items[i])
    case DStr(t) => '"' !in t
    case DFloat(lex) => IsFloatLexeme(lex)
    case _ => true
  }

  function Separator(more: bool): string {
    if more then "," else ""
  }

  /** The text of a document: elements and members separated by single
      commas, a colon after each quoted key, no whitespace. */
  function Write(d: Doc): string
    decreases d, 2, 0
  {
    match d
    case DNull => "null"
    case DBool(b) => if b then "true" else "false"
    case DInt(n) => ShowInt(n)
    case DFloat(lex) => lex
    case DStr(t) => "\"" + t + "\""
    case DArr(items) => "[" + WriteItems(items, 0, d) + "]"
    case DObj(ms) => "{" + WriteMembers(ms, 0, d) + "}"
  }

  /** The elements `items[from..]`, comma separated. */
  function WriteItems(items: seq<Doc>, from: nat, owner: Doc): string
    requires owner == DArr(items) && from <= |items|
    decreases owner, 1, |items| - from
  {
    if from == |items| then ""
    else Write(items[from]) + Separator(from + 1 < |items|) + WriteItems(items, from + 1, owner)
  }

  /** The members `ms[from..]`, comma separated. */
  function WriteMembers(ms: seq<(string, Doc)>, from: nat, owner: Doc): string
    requires owner == DObj(ms) && from <= |ms|
    decreases owner, 1, |ms| - from
  {
    if from == |ms| then ""
    else
      MemberText(ms[from].0, Write(ms[from].1)) + Separator(from + 1 < |ms|)
      + WriteMembers(ms, from + 1, owner)
  }

  /** The value tree a document stands for: an array's elements in order, an
      object's members put into a map one after the other, so that a
      repeated key keeps its last value, as `HashMap.put` does. */
  function Denote(d: Doc): Value
    decreases d, 2, 0
  {
    match d
    case DNull => Null
    case DBool(b) => Bool(b)
    case DInt(n) => Int(n)
    case DFloat(lex) => Float(lex)
    case DStr(t) => Str(t)
    case DArr(items) => Arr(DenoteItems([], items, 0, d))
    case DObj(ms) => Obj(DenoteMembers(map[], ms, 0, d))
  }

  /** `acc` followed by the values of `items[from..]`. */
  function DenoteItems(acc: seq<Value>, items: seq<Doc>, from: nat, owner: Doc): seq<Value>
    requires owner == DArr(items) && from <= |items|
    decreases owner, 1, |items| - from
  {
    if from == |items| then acc
    else DenoteItems(acc + [Denote(items[from])], items, from + 1, owner)
  }

  /** `acc` with the members `ms[from..]` put into it in order. */
  function DenoteMembers(acc: map<string, Value>, ms: seq<(string, Doc)>, from: nat, owner: Doc): map<string, Value>
    requires owner == DObj(ms) && from <= |ms|
    decreases owner, 1, |ms| - from
  {
    if from == |ms| then acc
    else DenoteMembers(acc[ms[from].0 := Denote(ms[from].1)], ms, from + 1, owner)
  }

  /** One step of `DenoteItems`: the next element's value joins the list. */
  lemma DenoteItemsStep(acc: seq<Value>, items: seq<Doc>, from: nat, owner: Doc)
    requires owner == DArr(items) && from < |items|
    ensures DenoteItems(acc, items, from, owner) == DenoteItems(acc + [Denote(items[from])], items, from + 1, owner)
  {
  }

  /** One step of `DenoteMembers`: the next member is put into the map. */
  lemma DenoteMembersStep(acc: map<string, Value>, ms: seq<(string, Doc)>, from: nat, owner: Doc)
    requires owner == DObj(ms) && from < |ms|
    ensures DenoteMembers(acc, ms, from, owner) == DenoteMembers(acc[ms[from].0 := Denote(ms[from].1)], ms, from + 1, owner)
  {
  }

  /** Where a written value ends, the number production would stop too. */
  ghost predicate StopsNumber(s: string, e: nat) {
    e == |s| || (e < |s| && !IsNumberChar(s[e]))
  }

  /** Every written document starts with a character `parseValue`
      dispatches on. */
  lemma WriteStart(d: Doc)
    requires WellFormed(d)
    ensures |Write(d)| > 0 && IsValueStart(Write(d)[0])
  {
  }

  /** Every written document starts with a character that is not
      whitespace. */
  lemma WriteLead(d: Doc)
    requires WellFormed(d)
    ensures |Write(d)| > 0 && !IsWhitespace(Write(d)[0])
  {
    WriteStart(d);
    PunctuationIsNotWhitespace(Write(d)[0]);
  }

  /** Past the last element only the closing bracket is left. */
  lemma ItemsEnd(items: seq<Doc>, from: nat, owner: Doc)
    requires owner == DArr(items) && from == |items|
    ensures WriteItems(items, from, owner) + "]" == "]"
  {
  }

  /** The last element is followed by the closing bracket alone. */
  lemma ItemsOne(items: seq<Doc>, from: nat, owner: Doc)
    requires owner == DArr(items) && from + 1 == |items|
    ensures WriteItems(items, from, owner) + "]" == Write(items[from]) + "]"
    ensures |WriteItems(items, from, owner)| == |Write(items[from])|
  {
    assert WriteItems(items, from + 1, owner) == "";
  }

  /** Any other element is followed by a comma and the rest of the list. */
  lemma ItemsCons(items: seq<Doc>, from: nat, owner: Doc)
    requires owner == DArr(items) && from + 1 < |items|
    ensures WriteItems(items, from, owner) + "]"
         == Write(items[from]) + ("," + (WriteItems(items, from + 1, owner) + "]"))
    ensures |WriteItems(items, from, owner)|
         == |Write(items[from])| + 1 + |WriteItems(items, from + 1, owner)|
  {
    var w := Write(items[from]);
    var rest := WriteItems(items, from + 1, owner);
    assert w + "," + rest + "]" == w + ("," + (rest + "]"));
  }

  /** The element list with its closing bracket never starts with
      whitespace. */
  lemma ItemsOpen(items: seq<Doc>, from: nat, owner: Doc)
    requires owner == DArr(items) && from <= |items|
    requires WellFormed(owner)
    ensures !IsWhitespace((WriteItems(items, from, owner) + "]")[0])
  {
    var w := WriteItems(items, from, owner) + "]";
    if from < |items| {
      WriteLead(items[from]);
      assert w[0] == Write(items[from])[0];
    } else {
      PunctuationIsNotWhitespace(w[0]);
    }
  }

  /** One member: its quoted key, a colon and its value's text. */
  function MemberText(key: string, value: string): (r: string)
    ensures |r| == |key| + 3 + |value| && r[0] == '"'
  {
    "\"" + key + "\"" + ":" + value
  }

  /** Past the last member only the closing brace is left. */
  lemma MembersEnd(ms: seq<(string, Doc)>, from: nat, owner: Doc)
    requires owner == DObj(ms) && from == |ms|
    ensures WriteMembers(ms, from, owner) + "}" == "}"
  {
  }

  /** The last member is followed by the closing brace alone. */
  lemma MembersOne(ms: seq<(string, Doc)>, from: nat, owner: Doc)
    requires owner == DObj(ms) && from + 1 == |ms|
    ensures var head := MemberText(ms[from].0, Write(ms[from].1));
      && WriteMembers(ms, from, owner) + "}" == head + "}"
      && |WriteMembers(ms, from, owner)| == |head|
  {
    assert WriteMembers(ms, from + 1, owner) == "";
  }

  /** Any other member is followed by a comma and the rest of the list. */
  lemma MembersCons(ms: seq<(string, Doc)>, from: nat, owner: Doc)
    requires owner == DObj(ms) && from + 1 < |ms|
    ensures var head := MemberText(ms[from].0, Write(ms[from].1));
      && WriteMembers(ms, from, owner) + "}" == head + ("," + (WriteMembers(ms, from + 1, owner) + "}"))
      && |WriteMembers(ms, from, owner)| == |head| + 1 + |WriteMembers(ms, from + 1, owner)|
  {
    var head := MemberText(ms[from].0, Write(ms[from].1));
    var rest := WriteMembers(ms, from + 1, owner);
    assert head + "," + rest + "}" == head + ("," + (rest + "}"));
  }

  /** The member list with its closing brace never starts with whitespace. */
  lemma MembersOpen(ms: seq<(string, Doc)>, from: nat, owner: Doc)
    requires owner == DObj(ms) && from <= |ms|
    ensures !IsWhitespace((WriteMembers(ms, from, owner) + "}")[0])
  {
    var w := WriteMembers(ms, from, owner) + "}";
    if from < |ms| {
      assert w[0] == '"';
    }
    PunctuationIsNotWhitespace(w[0]);
  }
}
