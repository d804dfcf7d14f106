/** Where the reader is looser or stricter than the JSON grammar: separators
    between members and elements are optional, a trailing comma is taken,
    a key must still be followed by a colon, a container must still be
    closed, and text after the root value is never looked at. */
module JsonLeniency {
  import opened Wrappers
  import opened JsonText
  import opened JsonParser
  import opened TextAt
  import opened JsonDocument
  import opened JsonRoundTrip
  import opened JsonValues

  /** A key that is not followed (after whitespace) by `:` is rejected. */
  lemma MemberNeedsColon(s: string, i: nat)
    requires i < |s| && ParseString(s, i).Success?
    requires var n := SkipWhitespace(s, ParseString(s, i).value.1); n < |s| && s[n] != ':'
    ensures ParseMember(s, i) == Failure(ExpectedColon)
  {
  }

  /** Running out of text right after a key is the end-of-input failure. */
  lemma MemberCutAfterKey(s: string, i: nat)
    requires i < |s| && ParseString(s, i).Success?
    requires SkipWhitespace(s, ParseString(s, i).value.1) == |s|
    ensures ParseMember(s, i) == Failure(EndOfInput)
  {
  }

  /** A comma after the last member is consumed and the closing brace after
      it ends the object. */
  lemma MembersTrailingComma(s: string, i: nat, acc: map<string, Value>, key: string, v: Value, j: nat)
    requires i < |s| && s[i] != '}'
    requires ParseMember(s, i) == Success((key, v, j))
    requires j < |s| && s[j] == ','
    requires var n := SkipWhitespace(s, j + 1); n < |s| && s[n] == '}'
    ensures ParseMembers(s, i, acc) == Success((Obj(acc[key := v]), SkipWhitespace(s, j + 1) + 1))
  {
    PunctuationIsNotWhitespace(s[j]);
    MembersStep(s, i, acc, key, v, j);
    MembersClose(s, SkipWhitespace(s, j + 1), acc[key := v]);
  }

  /** A comma after the last element is consumed and the closing bracket
      after it ends the array. */
  lemma ElementsTrailingComma(s: string, i: nat, acc: seq<Value>, v: Value, j: nat)
    requires i < |s| && s[i] != ']'
    requires ParseValue(s, i) == Success((v, j))
    requires j < |s| && s[j] == ','
    requires var n := SkipWhitespace(s, j + 1); n < |s| && s[n] == ']'
    ensures ParseElements(s, i, acc) == Success((Arr(acc + [v]), SkipWhitespace(s, j + 1) + 1))
  {
    PunctuationIsNotWhitespace(s[j]);
    ElementsStep(s, i, acc, v, j);
    ElementsClose(s, SkipWhitespace(s, j + 1), acc + [v]);
  }

  /** `{}`, with any whitespace inside, is the empty map. */
  lemma EmptyObject(s: string, p: nat)
    requires p < |s| && s[p] == '{'
    requires var n := SkipWhitespace(s, p + 1); n < |s| && s[n] == '}'
    ensures ParseValue(s, p) == Success((Obj(map[]), SkipWhitespace(s, p + 1) + 1))
  {
    ObjectDispatch(s, p);
    MembersClose(s, SkipWhitespace(s, p + 1), map[]);
  }

  /** `[]`, with any whitespace inside, is the empty list. */
  lemma EmptyArray(s: string, p: nat)
    requires p < |s| && s[p] == '['
    requires var n := SkipWhitespace(s, p + 1); n < |s| && s[n] == ']'
    ensures ParseValue(s, p) == Success((Arr([]), SkipWhitespace(s, p + 1) + 1))
  {
    ArrayDispatch(s, p);
    ElementsClose(s, SkipWhitespace(s, p + 1), []);
  }

  /** An object whose text has no closing brace left is rejected: the member
      loop only ever succeeds on a `}`. */
  lemma UnclosedObject(s: string, i: nat, acc: map<string, Value>)
    requires i <= |s|
    requires forall k :: i <= k < |s| ==> s[k] != '}'
    ensures ParseMembers(s, i, acc).Failure?
  {
  }

  /** An array whose text has no closing bracket left is rejected. */
  lemma UnclosedArray(s: string, i: nat, acc: seq<Value>)
    requires i <= |s|
    requires forall k :: i <= k < |s| ==> s[k] != ']'
    ensures ParseElements(s, i, acc).Failure?
  {
  }

  /** Whatever follows the root object is ignored, as long as `trim` leaves
      it in place: `parse` reads one value and stops. */
  lemma TrailingTextIgnored(d: Doc, rest: string)
    requires d.DObj? && WellFormed(d)
    requires |rest| > 0 && !IsTrimmable(rest[|rest| - 1])
    ensures Denote(d).Obj?
    ensures Parse(Write(d) + rest) == Success(Some(Denote(d).fields))
  {
    var w := Write(d);
    var s := w + rest;
    assert w == "{" + WriteMembers(d.members, 0, d) + "}";
    assert s[0] == '{' && s[|s| - 1] == rest[|rest| - 1];
    TrimPadding([], s, []);
    assert [] + s + [] == s;
    IndexAt(s, 0, w);
    ObjectParses(d, s, 0);
  }
}
