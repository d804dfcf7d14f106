/** The recursive-descent JSON reader. Each production is a pure function of
    the (already trimmed) text and a cursor, returning the value it built
    and the cursor just past it, or the failure the reader raises. */
module JsonParser {
  import opened Wrappers
  import opened JsonText
  import opened JsonNumber
  import opened TextAt

  /** The dynamic value tree: `HashMap`, `ArrayList`, `String`, `Integer`,
      `Double`, `Boolean` and `null`. A `Double` is kept as the lexeme it was
      read from. */
  datatype Value =
    | Obj(fields: map<string, Value>)
    | Arr(items: seq<Value>)
    | Str(text: string)
    | Int(n: int32)
    | Float(lexeme: string)
    | Bool(b: bool)
    | Null

  /** The exceptions the reader raises. `EndOfInput` is the
      `StringIndexOutOfBoundsException` of `peek` or `charAt` at the end of
      the text; `NotAnObject` is the `ClassCastException` of `parse`. */
  datatype Error =
    | EndOfInput
    | UnexpectedToken(c: char)
    | ExpectedColon
    | BadLiteral
    | BadNumber
    | NotAnObject

  /** A value and the cursor just past it. */
  type Parsed = Result<(Value, nat), Error>

  /** The characters `parseValue` dispatches on. */
  predicate IsValueStart(c: char) {
    c == '{' || c == '[' || c == '"' || c == 't' || c == 'f' || c == 'n' || c == '-' || IsDigit(c)
  }

  /** No dispatch character, separator or closing bracket is whitespace. */
  lemma PunctuationIsNotWhitespace(c: char)
    requires IsValueStart(c) || c == ',' || c == ':' || c == ']' || c == '}'
    ensures !IsWhitespace(c)
  {
  }

  /** The production chosen by the first character `c` builds a value of this shape. */
  predicate ShapeFits(c: char, v: Value) {
    if c == '{' then v.Obj?
    else if c == '[' then v.Arr?
    else if c == '"' then v.Str?
    else if c == 't' || c == 'f' then v.Bool?
    else if c == 'n' then v.Null?
    else v.Int? || v.Float?
  }

  /** The last character a production consumes: the closing bracket of a
      container, the closing quote of a string, and for a number the run is
      maximal, so the next character (if any) is not a number character. */
  predicate EndsProperly(s: string, j: nat, v: Value)
    requires 0 < j <= |s|
  {
    match v
    case Obj(_) => s[j - 1] == '}'
    case Arr(_) => s[j - 1] == ']'
    case Str(_) => s[j - 1] == '"'
    case Int(_) => j == |s| || !IsNumberChar(s[j])
    case Float(_) => j == |s| || !IsNumberChar(s[j])
    case _ => true
  }

  /** Index of the first `"` at or after `k`, or `|s|`. */
  function FindQuote(s: string, k: nat): (r: nat)
    requires k <= |s|
    ensures k <= r <= |s|
    ensures r < |s| ==> s[r] == '"'
    decreases |s| - k
  {
    if k < |s| && s[k] != '"' then FindQuote(s, k + 1) else k
  }

  /** A quote after a quote-free stretch is the one `FindQuote` finds. */
  lemma {:induction false} FindQuoteAt(s: string, k: nat, e: nat)
    requires k <= e < |s| && s[e] == '"'
    requires forall m :: k <= m < e ==> s[m] != '"'
    ensures FindQuote(s, k) == e
    decreases e - k
  {
    if k < e {
      FindQuoteAt(s, k + 1, e);
    }
  }

  /** `FindQuote` passes over no quote. */
  lemma FindQuoteRun(s: string, k: nat)
    requires k <= |s|
    ensures forall m :: k <= m < FindQuote(s, k) ==> s[m] != '"'
    decreases |s| - k
  {
    if k < |s| && s[k] != '"' {
      FindQuoteRun(s, k + 1);
    }
  }

  /** `parseString`: skips the character under the cursor without looking at
      it, then copies every character up to the next `"` verbatim (a
      backslash is an ordinary character). Running off the end is the
      `charAt` failure. */
  function ParseString(s: string, i: nat): (r: Result<(string, nat), Error>)
    requires i < |s|
    ensures r.Failure? ==> r.error == EndOfInput
    ensures r.Success? ==>
      var (t, j) := r.value;
      && j == i + |t| + 2 <= |s|
      && s[i + 1..j - 1] == t
      && s[j - 1] == '"'
  {
    var e := FindQuote(s, i + 1);
    if e == |s| then Failure(EndOfInput) else Success((s[i + 1..e], e + 1))
  }

  /** `parseString` succeeds exactly when a closing quote follows the
      cursor, and the text it returns stops at the first one. */
  lemma ParseStringReads(s: string, i: nat)
    requires i < |s|
    ensures ParseString(s, i).Success? <==> exists k :: i < k < |s| && s[k] == '"'
    ensures ParseString(s, i).Success? ==> '"' !in ParseString(s, i).value.0
  {
    FindQuoteRun(s, i + 1);
  }

  /** `parseNumber`: the maximal run of digits, `.` and `-`. A run holding a
      point goes to `Double.parseDouble`, any other run to
      `Integer.parseInt`. */
  function ParseNumber(s: string, i: nat): (r: Parsed)
    requires i < |s| && (IsDigit(s[i]) || s[i] == '-')
    ensures r.Success? ==> i < r.value.1 <= |s| && (r.value.0.Int? || r.value.0.Float?)
    ensures r.Success? ==> r.value.1 == |s| || !IsNumberChar(s[r.value.1])
    ensures r.Failure? ==> r.error == BadNumber
  {
    var e := NumberEnd(s, i);
    var lex := s[i..e];
    if '.' in lex then
      if IsDoubleLexeme(lex) then Success((Float(lex), e)) else Failure(BadNumber)
    else
      match ParseInt(lex)
      case Success(n) => Success((Int(n), e))
      case Failure(_) => Failure(BadNumber)
  }

  /** What `parseNumber` reads: exactly the maximal run of number characters;
      an integer when the run has no point, otherwise the run itself as a
      float lexeme; and it fails exactly when the run is not a number of its
      kind. */
  lemma ParseNumberReads(s: string, i: nat)
    requires i < |s| && (IsDigit(s[i]) || s[i] == '-')
    ensures var r := ParseNumber(s, i);
      r.Success? ==>
      var (v, j) := r.value;
      && (forall k :: i <= k < j ==> IsNumberChar(s[k]))
      && (v.Int? <==> '.' !in s[i..j])
      && (v.Int? ==> IsSignedDecimal(s[i..j]) && v.n as int == SignedValue(s[i..j]))
      && (v.Float? ==> v.lexeme == s[i..j] && IsDoubleLexeme(v.lexeme))
    ensures ParseNumber(s, i).Failure? <==>
      var lex := s[i..NumberEnd(s, i)];
      if '.' in lex then !IsDoubleLexeme(lex)
      else !(IsSignedDecimal(lex) && InInt32(SignedValue(lex)))
  {
    NumberEndRun(s, i);
  }

  /** `parseBoolean`: `true` is tried first, then `false`, each as a prefix
      of the remaining text (`substring(index).startsWith`). */
  function ParseBoolean(s: string, i: nat): (r: Parsed)
    requires i <= |s|
    ensures r.Success? <==> At(s, i, "true") || At(s, i, "false")
    ensures r.Success? && r.value.0 == Bool(true) ==> At(s, i, "true") && r.value.1 == i + 4
    ensures r.Success? && r.value.0 == Bool(false) ==> At(s, i, "false") && r.value.1 == i + 5
    ensures r.Success? ==> r.value.0.Bool?
    ensures r.Failure? ==> r.error == BadLiteral
  {
    if At(s, i, "true") then Success((Bool(true), i + 4))
    else if At(s, i, "false") then Success((Bool(false), i + 5))
    else Failure(BadLiteral)
  }

  /** `parseBoolean` reads a boolean exactly when the remaining text starts
      with `true` or `false`, its value is whether that word is `true`, and
      it consumes exactly that word. */
  lemma BooleanPrefix(s: string, i: nat)
    requires i <= |s|
    ensures var r := ParseBoolean(s, i);
      && (r.Success? <==> "true" <= s[i..] || "false" <= s[i..])
      && (r.Success? ==>
           && r.value.0 == Bool("true" <= s[i..])
           && s[i..r.value.1] == (if "true" <= s[i..] then "true" else "false"))
      && (r.Failure? ==> r.error == BadLiteral)
  {
    AtPrefix(s, i, "true");
    AtPrefix(s, i, "false");
    if At(s, i, "true") {
      AtSlice(s, i, "true");
    } else if At(s, i, "false") {
      AtSlice(s, i, "false");
    }
  }

  /** `parseNull`: `null` as a prefix of the remaining text. */
  function ParseNull(s: string, i: nat): (r: Parsed)
    requires i <= |s|
    ensures r.Success? <==> At(s, i, "null")
    ensures r.Success? ==> r.value == (Null, i + 4)
    ensures r.Failure? ==> r.error == BadLiteral
  {
    if At(s, i, "null") then Success((Null, i + 4))
    else Failure(BadLiteral)
  }

  /** `parseNull` reads `null` exactly when the remaining text starts with
      `null`, and then consumes exactly that word. */
  lemma NullPrefix(s: string, i: nat)
    requires i <= |s|
    ensures var r := ParseNull(s, i);
      && (r.Success? <==> "null" <= s[i..])
      && (r.Success? ==> s[i..r.value.1] == "null")
      && (r.Failure? ==> r.error == BadLiteral)
  {
    AtPrefix(s, i, "null");
    if At(s, i, "null") {
      AtSlice(s, i, "null");
    }
  }

  /** `parseValue`: skip whitespace, then dispatch on one character. */
  function ParseValue(s: string, i: nat): (r: Parsed)
    requires i <= |s|
    ensures r.Success? ==> i < r.value.1 <= |s|
    decreases |s| - i, 2
  {
    var k := SkipWhitespace(s, i);
    if k == |s| then Failure(EndOfInput)
    else
      var c := s[k];
      if c == '{' then ParseObject(s, k)
      else if c == '[' then ParseArray(s, k)
      else if c == '"' then
        match ParseString(s, k)
        case Success((t, j)) => Success((Str(t), j))
        case Failure(e) => Failure(e)
      else if c == 't' || c == 'f' then ParseBoolean(s, k)
      else if c == 'n' then ParseNull(s, k)
      else if IsDigit(c) || c == '-' then ParseNumber(s, k)
      else Failure(UnexpectedToken(c))
  }

  /** What `parseValue` does with the first significant character: the end of
      the text and a character no production starts with are errors, and a
      production that succeeds builds a value of the shape its first
      character announces and stops just past that value's last character. */
  lemma ParseValueShape(s: string, i: nat)
    requires i <= |s|
    ensures var r := ParseValue(s, i);
      r.Success? ==>
      var k := SkipWhitespace(s, i);
      && k < |s|
      && IsValueStart(s[k])
      && k < r.value.1 <= |s|
      && ShapeFits(s[k], r.value.0)
      && EndsProperly(s, r.value.1, r.value.0)
    ensures SkipWhitespace(s, i) == |s| ==> ParseValue(s, i) == Failure(EndOfInput)
    ensures SkipWhitespace(s, i) < |s| && !IsValueStart(s[SkipWhitespace(s, i)]) ==>
      ParseValue(s, i) == Failure(UnexpectedToken(s[SkipWhitespace(s, i)]))
  {
  }

  /** `parseObject`: skip the opening brace, then read members into an
      initially empty map. */
  function ParseObject(s: string, i: nat): (r: Parsed)
    requires i < |s|
    ensures r.Success? ==> i < r.value.1 <= |s| && r.value.0.Obj? && s[r.value.1 - 1] == '}'
    decreases |s| - i, 1
  {
    ParseMembers(s, SkipWhitespace(s, i + 1), map[])
  }

  /** One pass of the member loop of `parseObject`: a key read by
      `parseString` (so its first character is skipped unchecked), then
      whitespace, a required `:`, and a value. */
  function ParseMember(s: string, i: nat): (r: Result<(string, Value, nat), Error>)
    requires i < |s|
    ensures r.Success? ==> i < r.value.2 <= |s|
    decreases |s| - i, 3
  {
    var kj :- ParseString(s, i);
    var k := SkipWhitespace(s, kj.1);
    if k == |s| then Failure(EndOfInput)
    else if s[k] != ':' then Failure(ExpectedColon)
    else
      var vm :- ParseValue(s, SkipWhitespace(s, k + 1));
      Success((kj.0, vm.0, vm.1))
  }

  /** The member loop of `parseObject`, with the map built so far. `put`
      makes a repeated key keep its last value. A `,` after a member is
      consumed if present; it is never required. */
  function ParseMembers(s: string, i: nat, acc: map<string, Value>): (r: Parsed)
    requires i <= |s|
    ensures r.Success? ==>
      && i < r.value.1 <= |s|
      && r.value.0.Obj?
      && s[r.value.1 - 1] == '}'
    decreases |s| - i, 4
  {
    if i == |s| then Failure(EndOfInput)
    else if s[i] == '}' then Success((Obj(acc), i + 1))
    else
      match ParseMember(s, i)
      case Failure(e) => Failure(e)
      case Success((key, v, j)) =>
        var n := SkipWhitespace(s, j);
        if n == |s| then Failure(EndOfInput)
        else
          var next := if s[n] == ',' then SkipWhitespace(s, n + 1) else n;
          ParseMembers(s, next, acc[key := v])
  }

  /** `parseArray`: skip the opening bracket, then read elements into an
      initially empty list. */
  function ParseArray(s: string, i: nat): (r: Parsed)
    requires i < |s|
    ensures r.Success? ==> i < r.value.1 <= |s| && r.value.0.Arr? && s[r.value.1 - 1] == ']'
    decreases |s| - i, 1
  {
    ParseElements(s, SkipWhitespace(s, i + 1), [])
  }

  /** The element loop of `parseArray`, with the elements read so far, in
      source order. A `,` after an element is consumed if present. */
  function ParseElements(s: string, i: nat, acc: seq<Value>): (r: Parsed)
    requires i <= |s|
    ensures r.Success? ==>
      && i < r.value.1 <= |s|
      && r.value.0.Arr?
      && s[r.value.1 - 1] == ']'
    decreases |s| - i, 4
  {
    if i == |s| then Failure(EndOfInput)
    else if s[i] == ']' then Success((Arr(acc), i + 1))
    else
      match ParseValue(s, i)
      case Failure(e) => Failure(e)
      case Success((v, j)) =>
        var n := SkipWhitespace(s, j);
        if n == |s| then Failure(EndOfInput)
        else
          var next := if s[n] == ',' then SkipWhitespace(s, n + 1) else n;
          ParseElements(s, next, acc + [v])
  }

  /** The closing bracket ends the element loop with the elements read so far. */
  lemma ElementsClose(s: string, i: nat, acc: seq<Value>)
    requires i < |s| && s[i] == ']'
    ensures ParseElements(s, i, acc) == Success((Arr(acc), i + 1))
  {
  }

  /** One element and the optional comma after it. */
  lemma ElementsStep(s: string, i: nat, acc: seq<Value>, v: Value, j: nat)
    requires i < |s| && s[i] != ']'
    requires ParseValue(s, i) == Success((v, j))
    requires j < |s| && !IsWhitespace(s[j])
    ensures s[j] == ',' ==> ParseElements(s, i, acc) == ParseElements(s, SkipWhitespace(s, j + 1), acc + [v])
    ensures s[j] != ',' ==> ParseElements(s, i, acc) == ParseElements(s, j, acc + [v])
  {
    assert SkipWhitespace(s, j) == j;
  }

  /** An element followed directly by a comma: the loop goes on after the
      comma. */
  lemma ElementsComma(s: string, i: nat, acc: seq<Value>, v: Value, j: nat)
    requires i < |s| && s[i] != ']'
    requires ParseValue(s, i) == Success((v, j))
    requires j < |s| && s[j] == ',' && SkipWhitespace(s, j + 1) == j + 1
    ensures ParseElements(s, i, acc) == ParseElements(s, j + 1, acc + [v])
  {
    assert SkipWhitespace(s, j) == j;
  }

  /** An element followed directly by the closing bracket ends the loop. */
  lemma ElementsLast(s: string, i: nat, acc: seq<Value>, v: Value, j: nat)
    requires i < |s| && s[i] != ']'
    requires ParseValue(s, i) == Success((v, j))
    requires j < |s| && s[j] == ']'
    ensures ParseElements(s, i, acc) == Success((Arr(acc + [v]), j + 1))
  {
    PunctuationIsNotWhitespace(s[j]);
    ElementsStep(s, i, acc, v, j);
    ElementsClose(s, j, acc + [v]);
  }

  /** The closing brace ends the member loop with the map built so far. */
  lemma MembersClose(s: string, i: nat, acc: map<string, Value>)
    requires i < |s| && s[i] == '}'
    ensures ParseMembers(s, i, acc) == Success((Obj(acc), i + 1))
  {
  }

  /** One member and the optional comma after it. */
  lemma MembersStep(s: string, i: nat, acc: map<string, Value>, key: string, v: Value, j: nat)
    requires i < |s| && s[i] != '}'
    requires ParseMember(s, i) == Success((key, v, j))
    requires j < |s| && !IsWhitespace(s[j])
    ensures s[j] == ',' ==> ParseMembers(s, i, acc) == ParseMembers(s, SkipWhitespace(s, j + 1), acc[key := v])
    ensures s[j] != ',' ==> ParseMembers(s, i, acc) == ParseMembers(s, j, acc[key := v])
  {
    assert SkipWhitespace(s, j) == j;
  }

  /** A member followed directly by a comma: the loop goes on after the
      comma. */
  lemma MembersComma(s: string, i: nat, acc: map<string, Value>, key: string, v: Value, j: nat)
    requires i < |s| && s[i] != '}'
    requires ParseMember(s, i) == Success((key, v, j))
    requires j < |s| && s[j] == ',' && SkipWhitespace(s, j + 1) == j + 1
    ensures ParseMembers(s, i, acc) == ParseMembers(s, j + 1, acc[key := v])
  {
    assert SkipWhitespace(s, j) == j;
  }

  /** A member followed directly by the closing brace ends the loop. */
  lemma MembersLast(s: string, i: nat, acc: map<string, Value>, key: string, v: Value, j: nat)
    requires i < |s| && s[i] != '}'
    requires ParseMember(s, i) == Success((key, v, j))
    requires j < |s| && s[j] == '}'
    ensures ParseMembers(s, i, acc) == Success((Obj(acc[key := v]), j + 1))
  {
    PunctuationIsNotWhitespace(s[j]);
    MembersStep(s, i, acc, key, v, j);
    MembersClose(s, j, acc[key := v]);
  }

  /** A key, a colon and a value make one member. */
  lemma MemberParts(s: string, i: nat, key: string, c: nat, v: Value, j: nat)
    requires i < |s|
    requires ParseString(s, i) == Success((key, c))
    requires c < |s| && s[c] == ':' && SkipWhitespace(s, c) == c
    requires ParseValue(s, SkipWhitespace(s, c + 1)) == Success((v, j))
    ensures ParseMember(s, i) == Success((key, v, j))
  {
    var w := SkipWhitespace(s, c + 1);
    var vm := ParseValue(s, w);
    assert vm == Success((v, j));
  }

  /** `Main.parse`: trim the document, read one value from the start and
      ignore whatever follows it. The cast to `Map` lets an object through
      (`Some`) and `null` through (`None`) and rejects every other root. */
  function Parse(text: string): (r: Result<Option<map<string, Value>>, Error>)
    ensures r.Success? <==>
      var p := ParseValue(Trim(text), 0);
      p.Success? && (p.value.0.Obj? || p.value.0.Null?)
    ensures r.Success? && r.value.Some? ==> ParseValue(Trim(text), 0).value.0 == Obj(r.value.value)
    ensures var t := Trim(text); var k := SkipWhitespace(t, 0);
      && (k == |t| ==> r == Failure(EndOfInput))
      && (r.Success? && r.value.Some? ==> k < |t| && t[k] == '{')
      && (r.Success? && r.value.None? ==> "null" <= t[k..])
      && (k < |t| && IsValueStart(t[k]) && t[k] != '{' && t[k] != 'n' ==> r.Failure?)
  {
    var t := Trim(text);
    ParseValueShape(t, 0);
    NullPrefix(t, SkipWhitespace(t, 0));
    var vj :- ParseValue(t, 0);
    match vj.0
    case Obj(m) => Success(Some(m))
    case Null => Success(None)
    case _ => Failure(NotAnObject)
  }
}
