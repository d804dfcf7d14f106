/** Character-level helpers of the JSON reader: the whitespace test used when
    skipping between tokens, the trimming applied to the whole document, and
    the cursor scans that both rely on. */
module JsonText {

  /** `Character.isWhitespace` for a UTF-16 code unit: the ASCII controls
      TAB, LF, VT, FF, CR and the four information separators, plus every
      Unicode space, line or paragraph separator except the three
      non-breaking spaces (U+00A0, U+2007, U+202F). */
  predicate IsWhitespace(c: char) {
    if c <= ' ' then c == ' ' || ('\t' <= c <= '\r') || '\U{1C}' <= c
    else
      || c == '\U{1680}'
      || ('\U{2000}' <= c <= '\U{2006}')
      || ('\U{2008}' <= c <= '\U{200A}')
      || c == '\U{2028}' || c == '\U{2029}'
      || c == '\U{205F}' || c == '\U{3000}'
  }

  /** The classes `Character.isWhitespace` draws: the ASCII layout controls
      and the Unicode separators are whitespace; other controls, the
      non-breaking spaces, NEL and the byte-order mark are not. So the
      whitespace skipped between tokens and the characters `trim` removes
      are different sets, each with members the other lacks. */
  lemma WhitespaceClasses()
    ensures IsWhitespace(' ') && IsWhitespace('\t') && IsWhitespace('\n') && IsWhitespace('\r')
    ensures IsWhitespace('\U{0B}') && IsWhitespace('\U{0C}') && IsWhitespace('\U{1F}')
    ensures IsWhitespace('\U{2028}') && IsWhitespace('\U{2029}') && IsWhitespace('\U{3000}')
    ensures !IsWhitespace('\0') && !IsWhitespace('\U{08}') && !IsWhitespace('\U{0E}')
    ensures !IsWhitespace('\U{85}') && !IsWhitespace('\U{A0}') && !IsWhitespace('\U{2007}')
    ensures !IsWhitespace('\U{202F}') && !IsWhitespace('\U{FEFF}')
    ensures IsTrimmable('\0') && !IsTrimmable('\U{3000}')
  {
  }

  /** Skipping is a no-op at a significant character. */
  lemma SkipNothing(s: string, i: nat)
    requires i < |s| && !IsWhitespace(s[i])
    ensures SkipWhitespace(s, i) == i
  {
  }

  /** The character at `k` is whitespace. Stated about a position rather than a
      character so that facts about whole runs are only unfolded on demand. */
  predicate WhitespaceAt(s: string, k: nat)
    requires k < |s|
  {
    IsWhitespace(s[k])
  }

  /** `String.trim` removes every leading and trailing character whose code is at most U+0020. */
  predicate IsTrimmable(c: char) {
    c <= ' '
  }

  predicate AllTrimmable(s: string) {
    forall k :: 0 <= k < |s| ==> IsTrimmable(s[k])
  }

  /** The cursor loop of `skipWhitespace`: the first index at or after `i`
      that does not hold whitespace, or the end of the text. */
  function SkipWhitespace(s: string, i: nat): (r: nat)
    requires i <= |s|
    ensures i <= r <= |s|
    ensures r < |s| ==> !IsWhitespace(s[r])
    decreases |s| - i
  {
    if i < |s| && IsWhitespace(s[i]) then SkipWhitespace(s, i + 1) else i
  }

  /** Everything `SkipWhitespace` skips is whitespace. */
  lemma SkipWhitespaceRun(s: string, i: nat)
    requires i <= |s|
    ensures forall k :: i <= k < SkipWhitespace(s, i) ==> WhitespaceAt(s, k)
    decreases |s| - i
  {
    if i < |s| && IsWhitespace(s[i]) {
      SkipWhitespaceRun(s, i + 1);
    }
  }

  /** Conversely, a whitespace run ended by a significant character or by
      the end of the text is exactly what `SkipWhitespace` skips. */
  lemma {:induction false} SkipWhitespaceTo(s: string, i: nat, j: nat)
    requires i <= j <= |s|
    requires forall k :: i <= k < j ==> WhitespaceAt(s, k)
    requires j == |s| || !IsWhitespace(s[j])
    ensures SkipWhitespace(s, i) == j
    decreases j - i
  {
    if i < j {
      assert WhitespaceAt(s, i);
      SkipWhitespaceTo(s, i + 1, j);
    }
  }

  /** Index of the first character of `s` that `trim` keeps, or `|s|`. */
  function TrimStart(s: string, i: nat): (r: nat)
    requires i <= |s|
    ensures i <= r <= |s|
    ensures forall k :: i <= k < r ==> IsTrimmable(s[k])
    ensures r < |s| ==> !IsTrimmable(s[r])
    decreases |s| - i
  {
    if i < |s| && IsTrimmable(s[i]) then TrimStart(s, i + 1) else i
  }

  /** One past the last character of `s[lo..hi]` that `trim` keeps, or `lo`. */
  function TrimEnd(s: string, lo: nat, hi: nat): (r: nat)
    requires lo <= hi <= |s|
    ensures lo <= r <= hi
    ensures forall k :: r <= k < hi ==> IsTrimmable(s[k])
    ensures lo < r ==> !IsTrimmable(s[r - 1])
    decreases hi - lo
  {
    if lo < hi && IsTrimmable(s[hi - 1]) then TrimEnd(s, lo, hi - 1) else hi
  }

  /** `String.trim`. */
  function Trim(s: string): (r: string)
    ensures |r| <= |s|
    ensures r == [] || (!IsTrimmable(r[0]) && !IsTrimmable(r[|r| - 1]))
    ensures r == [] <==> AllTrimmable(s)
  {
    var a := TrimStart(s, 0);
    var b := TrimEnd(s, a, |s|);
    s[a..b]
  }

  /** Trimming only ever removes trimmable characters from the two ends, so
      wrapping a text whose ends are already significant in trimmable padding
      and trimming again gives that text back. */
  lemma {:induction false} TrimPadding(pre: string, t: string, post: string)
    requires AllTrimmable(pre) && AllTrimmable(post)
    requires t == [] || (!IsTrimmable(t[0]) && !IsTrimmable(t[|t| - 1]))
    ensures Trim(pre + t + post) == t
  {
    var s := pre + t + post;
    var a := TrimStart(s, 0);
    if t == [] {
      assert AllTrimmable(s) by {
        forall k | 0 <= k < |s| ensures IsTrimmable(s[k]) {
          if k < |pre| { assert s[k] == pre[k]; } else { assert s[k] == post[k - |pre|]; }
        }
      }
    } else {
      assert forall k :: 0 <= k < |pre| ==> s[k] == pre[k];
      assert forall k :: |pre| + |t| <= k < |s| ==> s[k] == post[k - |pre| - |t|];
      assert s[|pre|] == t[0];
      assert a == |pre|;
      var b := TrimEnd(s, a, |s|);
      assert s[|pre| + |t| - 1] == t[|t| - 1];
      assert b == |pre| + |t|;
      assert s[a..b] == t;
    }
  }

  /** Trimming is idempotent. */
  lemma TrimIdempotent(s: string)
    ensures Trim(Trim(s)) == Trim(s)
  {
    TrimPadding([], Trim(s), []);
    assert [] + Trim(s) + [] == Trim(s);
  }
}
