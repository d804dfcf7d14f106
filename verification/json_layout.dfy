/** Whitespace between tokens: the reader skips any run of whitespace
    before a value, around a member's colon, after a comma and before a
    closing brace, so texts laid out over several lines read like their
    compact forms. */
module JsonLayout {
  import opened Wrappers
  import opened JsonText
  import opened JsonParser
  import opened TextAt
  import opened JsonRoundTrip

  /** A run of whitespace (possibly empty). */
  predicate Blank(g: string) {
    forall k :: 0 <= k < |g| ==> IsWhitespace(g[k])
  }

  /** A whitespace run followed by a significant character is skipped in
      one go. */
  lemma GapAt(s: string, p: nat, g: string)
    requires At(s, p, g) && Blank(g)
    requires p + |g| < |s| && !IsWhitespace(s[p + |g|])
    ensures SkipWhitespace(s, p) == p + |g|
  {
    AtIndex(s, p, g);
    forall k | p <= k < p + |g|
      ensures WhitespaceAt(s, k)
    {
      assert s[k] == g[k - p];
    }
    SkipWhitespaceTo(s, p, p + |g|);
  }

  /** The text of a member up to its value: a quoted key, whitespace, the
      colon, whitespace. */
  function MemberHead(key: string, before: string, after: string): (r: string)
    ensures |r| == |key| + 3 + |before| + |after| && r[0] == '"'
  {
    "\"" + key + "\"" + before + ":" + after
  }

  /** A member laid out with whitespace around its colon is read as the key
      and the value after the whitespace. */
  lemma MemberAt(s: string, p: nat, key: string, before: string, after: string, v: Value, j: nat)
    requires '"' !in key && Blank(before) && Blank(after)
    requires At(s, p, MemberHead(key, before, after))
    requires var q := p + |MemberHead(key, before, after)|;
      q < |s| && !IsWhitespace(s[q]) && ParseValue(s, q) == Success((v, j))
    ensures ParseMember(s, p) == Success((key, v, j))
  {
    HeadAt(s, p, key, before, after);
  }

  /** The cursor positions `parseObject` passes through in a member's head:
      after the key, at the colon, and at the value. */
  lemma HeadAt(s: string, p: nat, key: string, before: string, after: string)
    requires '"' !in key && Blank(before) && Blank(after)
    requires At(s, p, MemberHead(key, before, after))
    requires var q := p + |MemberHead(key, before, after)|;
      q < |s| && !IsWhitespace(s[q])
    ensures var c := p + |key| + 2 + |before|;
      && ParseString(s, p) == Success((key, p + |key| + 2))
      && SkipWhitespace(s, p + |key| + 2) == c
      && c < |s| && s[c] == ':'
      && SkipWhitespace(s, c + 1) == p + |MemberHead(key, before, after)|
  {
    var quoted := "\"" + key + "\"";
    var c := p + |quoted| + |before|;
    assert MemberHead(key, before, after) == quoted + before + ":" + after;
    AtSplit(s, p, quoted + before + ":", after);
    AtSplit(s, p, quoted + before, ":");
    AtSplit(s, p, quoted, before);
    StringAt(s, p, key);
    AtHead(s, c, ":");
    PunctuationIsNotWhitespace(s[c]);
    GapAt(s, p + |quoted|, before);
    GapAt(s, c + 1, after);
  }

  /** A value after whitespace: the reader skips to it. */
  lemma ValueAfterGap(s: string, p: nat, g: string)
    requires At(s, p, g) && Blank(g)
    requires p + |g| < |s| && !IsWhitespace(s[p + |g|])
    ensures ParseValue(s, p) == ParseValue(s, p + |g|)
  {
    GapAt(s, p, g);
    SkipNothing(s, p + |g|);
  }

  /** A member, a comma, whitespace: the member loop goes on at the next
      significant character with the member put into the map. */
  lemma MembersCommaGap(s: string, i: nat, acc: map<string, Value>, key: string, v: Value, j: nat, g: string)
    requires i < |s| && s[i] != '}'
    requires ParseMember(s, i) == Success((key, v, j))
    requires At(s, j, "," + g) && Blank(g)
    requires j + 1 + |g| < |s| && !IsWhitespace(s[j + 1 + |g|])
    ensures ParseMembers(s, i, acc) == ParseMembers(s, j + 1 + |g|, acc[key := v])
  {
    AtSplit(s, j, ",", g);
    AtHead(s, j, ",");
    PunctuationIsNotWhitespace(s[j]);
    SkipNothing(s, j);
    GapAt(s, j + 1, g);
  }

  /** A member, whitespace, the closing brace: the loop ends with the member
      put into the map. */
  lemma MembersGapClose(s: string, i: nat, acc: map<string, Value>, key: string, v: Value, j: nat, g: string)
    requires i < |s| && s[i] != '}'
    requires ParseMember(s, i) == Success((key, v, j))
    requires At(s, j, g + "}") && Blank(g)
    ensures ParseMembers(s, i, acc) == Success((Obj(acc[key := v]), j + |g| + 1))
  {
    AtSplit(s, j, g, "}");
    AtHead(s, j + |g|, "}");
    PunctuationIsNotWhitespace(s[j + |g|]);
    GapAt(s, j, g);
    MembersClose(s, j + |g|, acc[key := v]);
  }
}
