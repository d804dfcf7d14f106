/** Occurrence of a text at a position of a larger text, and the facts the
    reading proofs need about it. */
module TextAt {
  /** The character of `w` at offset `k` stands at position `p + k` of `s`.
      Named so that occurrence facts are only unfolded where a proof asks
      for a particular offset. */
  predicate CharAt(s: string, p: nat, w: string, k: nat)
    requires k < |w| && p + k < |s|
  {
    s[p + k] == w[k]
  }

  /** `w` occurs in `s` at position `p`: the text from `p` on starts with
      `w`. */
  predicate At(s: string, p: nat, w: string) {
    p + |w| <= |s| && forall k: nat :: k < |w| ==> CharAt(s, p, w, k)
  }

  /** Occurrence, character by character. */
  lemma AtIndex(s: string, p: nat, w: string)
    requires At(s, p, w)
    ensures p + |w| <= |s| && forall k :: 0 <= k < |w| ==> s[p + k] == w[k]
  {
    forall k | 0 <= k < |w|
      ensures s[p + k] == w[k]
    {
      assert CharAt(s, p, w, k);
    }
  }

  lemma IndexAt(s: string, p: nat, w: string)
    requires p + |w| <= |s| && forall k :: 0 <= k < |w| ==> s[p + k] == w[k]
    ensures At(s, p, w)
  {
    forall k: nat | k < |w|
      ensures CharAt(s, p, w, k)
    {
    }
  }

  /** Occurrence is equality with a slice. */
  lemma AtSlice(s: string, p: nat, w: string)
    requires At(s, p, w)
    ensures s[p..p + |w|] == w
  {
    AtIndex(s, p, w);
  }

  lemma AtSplit(s: string, p: nat, a: string, b: string)
    requires At(s, p, a + b)
    ensures At(s, p, a) && At(s, p + |a|, b)
  {
    forall k: nat | k < |a|
      ensures CharAt(s, p, a, k)
    {
      assert CharAt(s, p, a + b, k);
      assert (a + b)[k] == a[k];
    }
    var q := p + |a|;
    forall k: nat | k < |b|
      ensures CharAt(s, q, b, k)
    {
      assert CharAt(s, p, a + b, |a| + k);
      assert (a + b)[|a| + k] == b[k];
    }
  }

  lemma AtClosed(s: string, p: nat, a: string, b: string)
    requires At(s, p, a) && At(s, p + |a|, b)
    ensures At(s, p, a + b)
  {
    forall k: nat | k < |a + b|
      ensures CharAt(s, p, a + b, k)
    {
      if k < |a| {
        assert CharAt(s, p, a, k);
      } else {
        assert CharAt(s, p + |a|, b, k - |a|);
      }
    }
  }

  lemma AtHead(s: string, p: nat, w: string)
    requires At(s, p, w) && |w| > 0
    ensures p < |s| && s[p] == w[0]
  {
    assert CharAt(s, p, w, 0);
  }

  /** Occurrence at `p` is the prefix test on the text from `p` on. */
  lemma AtPrefix(s: string, p: nat, w: string)
    requires p <= |s|
    ensures At(s, p, w) <==> w <= s[p..]
  {
    if At(s, p, w) {
      AtSlice(s, p, w);
      assert s[p..][..|w|] == s[p..p + |w|];
    }
    if w <= s[p..] {
      assert forall k :: 0 <= k < |w| ==> s[p..][k] == s[p + k];
      IndexAt(s, p, w);
    }
  }
}
