/** `BinaryTreeSerializer`: a pre-order encoding of a tree as comma-ended
    tokens, `null` for each empty child, and the reader that rebuilds a tree
    from the comma-split tokens. Node values appear as their `toString`
    texts; the reader puts the token texts back unconverted, so the model
    works on trees of strings. */
module TreeCodec {
  import opened Wrappers
  import opened BinaryTree

  /** What `deserialize` can throw: `poll` on an empty queue returns `null`,
      and `val.equals("null")` then dereferences it. */
  datatype CodecError = NullPointer

  const NullToken: string := "null"

  /** The tokens `serializeHelper` appends, in order, without their commas. */
  function Tokens(t: Tree<string>): seq<string> {
    match t
    case Nil => [NullToken]
    case Node(v, l, r) => [v] + Tokens(l) + Tokens(r)
  }

  /** Each token followed by a comma, the way the `StringBuilder` receives
      them. */
  function Join(ts: seq<string>): (r: string)
    ensures |ts| > 0 ==> |r| > 0 && r[|r| - 1] == ','
  {
    if |ts| == 0 then "" else ts[0] + "," + Join(ts[1..])
  }

  /** `serialize`: `null,` for an empty tree, otherwise the value, a comma,
      then the left and the right subtree. */
  function Serialize(t: Tree<string>): (r: string)
    ensures r == Join(Tokens(t))
  {
    match t
    case Nil => "null,"
    case Node(v, l, r) =>
      JoinAppend([v], Tokens(l));
      JoinAppend([v] + Tokens(l), Tokens(r));
      v + "," + Serialize(l) + Serialize(r)
  }

  lemma {:induction false} JoinAppend(a: seq<string>, b: seq<string>)
    ensures Join(a + b) == Join(a) + Join(b)
    decreases |a|
  {
    if |a| > 0 {
      assert (a + b)[1..] == a[1..] + b;
      JoinAppend(a[1..], b);
    } else {
      assert a + b == b;
    }
  }

  function CountOf(ts: seq<string>, w: string): nat {
    if |ts| == 0 then 0 else (if ts[0] == w then 1 else 0) + CountOf(ts[1..], w)
  }

  lemma {:induction false} CountAppend(a: seq<string>, b: seq<string>, w: string)
    ensures CountOf(a + b, w) == CountOf(a, w) + CountOf(b, w)
    decreases |a|
  {
    if |a| > 0 {
      assert (a + b)[1..] == a[1..] + b;
      CountAppend(a[1..], b, w);
    } else {
      assert a + b == b;
    }
  }

  /** No value is the text `null`, and none holds the separator. */
  predicate Clean(t: Tree<string>) {
    match t
    case Nil => true
    case Node(v, l, r) => v != NullToken && ',' !in v && Clean(l) && Clean(r)
  }

  /** A tree of `n` nodes is written as `2n + 1` tokens, `n + 1` of them
      `null` (one per empty child), when no value is itself `null`. */
  lemma {:induction false} TokenCounts(t: Tree<string>)
    requires Clean(t)
    ensures |Tokens(t)| == 2 * Size(t) + 1
    ensures CountOf(Tokens(t), NullToken) == Size(t) + 1
  {
    match t
    case Nil =>
    case Node(v, l, r) =>
      TokenCounts(l);
      TokenCounts(r);
      CountAppend([v], Tokens(l), NullToken);
      CountAppend([v] + Tokens(l), Tokens(r), NullToken);
  }

  /** The last token of any encoding is the `null` of the rightmost empty
      child. */
  lemma {:induction false} TokensEndWithNull(t: Tree<string>)
    ensures |Tokens(t)| > 0 && Tokens(t)[|Tokens(t)| - 1] == NullToken
  {
    match t
    case Nil =>
    case Node(v, l, r) =>
      TokensEndWithNull(r);
  }

  /** `deserializeHelper` on a queue: poll a token; `null` is the empty tree,
      anything else a node whose left and then right subtree are read from
      the rest of the queue. Returns the tree and the tokens left over. */
  function ReadTree(q: seq<string>): (r: Result<(Tree<string>, seq<string>), CodecError>)
    ensures r.Success? ==> |r.value.1| < |q|
    decreases |q|
  {
    if |q| == 0 then Failure(NullPointer)
    else if q[0] == NullToken then Success((Nil, q[1..]))
    else
      match ReadTree(q[1..])
      case Failure(e) => Failure(e)
      case Success((l, rest)) =>
        match ReadTree(rest)
        case Failure(e) => Failure(e)
        case Success((r, rest2)) => Success((Node(q[0], l, r), rest2))
  }

  /** The reader consumes exactly one encoded subtree and leaves the rest of
      the queue alone. */
  lemma {:induction false} ReadTokens(t: Tree<string>, rest: seq<string>)
    requires Clean(t)
    ensures ReadTree(Tokens(t) + rest) == Success((t, rest))
  {
    match t
    case Nil =>
      assert (Tokens(t) + rest)[1..] == rest;
    case Node(v, l, r) =>
      var q := Tokens(t) + rest;
      assert q[0] == v;
      assert q[1..] == Tokens(l) + (Tokens(r) + rest);
      ReadTokens(l, Tokens(r) + rest);
      ReadTokens(r, rest);
  }

  /** Conversely, whatever the reader builds is the encoding of its result
      followed by the tokens it left: it reads nothing but one subtree. */
  lemma {:induction false} ReadIsTokens(q: seq<string>)
    requires ReadTree(q).Success?
    ensures q == Tokens(ReadTree(q).value.0) + ReadTree(q).value.1
    decreases |q|
  {
    if q[0] == NullToken {
      assert q == [q[0]] + q[1..];
    } else {
      var (l, rest) := ReadTree(q[1..]).value;
      var (r, rest2) := ReadTree(rest).value;
      ReadIsTokens(q[1..]);
      ReadIsTokens(rest);
      assert ReadTree(q) == Success((Node(q[0], l, r), rest2));
      calc {
        Tokens(Node(q[0], l, r)) + rest2;
        [q[0]] + Tokens(l) + Tokens(r) + rest2;
        [q[0]] + (Tokens(l) + (Tokens(r) + rest2));
        [q[0]] + q[1..];
      }
    }
  }

  /** Cut short, an encoding runs the queue dry: `poll` returns `null`. */
  lemma {:induction false} ReadTruncated(t: Tree<string>, k: nat)
    requires Clean(t) && k < |Tokens(t)|
    ensures ReadTree(Tokens(t)[..k]) == Failure(NullPointer)
  {
    var q := Tokens(t)[..k];
    match t
    case Nil =>
    case Node(v, l, r) =>
      if k > 0 {
        assert q[0] == v;
        var n := |Tokens(l)|;
        if k - 1 < n {
          assert q[1..] == Tokens(l)[..k - 1];
          ReadTruncated(l, k - 1);
        } else {
          assert q[1..] == Tokens(l) + Tokens(r)[..k - 1 - n];
          ReadTokens(l, Tokens(r)[..k - 1 - n]);
          ReadTruncated(r, k - 1 - n);
        }
      }
  }

  /** The texts between commas: one more piece than there are commas. */
  function Pieces(s: string): (ps: seq<string>)
    ensures |ps| > 0
    ensures forall k :: 0 <= k < |ps| ==> ',' !in ps[k]
    decreases |s|
  {
    if |s| == 0 then [""]
    else if s[0] == ',' then [""] + Pieces(s[1..])
    else var rest := Pieces(s[1..]); [[s[0]] + rest[0]] + rest[1..]
  }

  /** The pieces put back together, a comma between each two. */
  function Rejoin(ps: seq<string>): string
    requires |ps| > 0
  {
    if |ps| == 1 then ps[0] else ps[0] + "," + Rejoin(ps[1..])
  }

  /** Cutting at every comma loses nothing: the pieces rejoined are the
      text. */
  lemma {:induction false} PiecesRejoin(s: string)
    ensures Rejoin(Pieces(s)) == s
    decreases |s|
  {
    if |s| == 0 {
    } else if s[0] == ',' {
      PiecesRejoin(s[1..]);
      assert s == "," + s[1..];
    } else {
      var rest := Pieces(s[1..]);
      PiecesRejoin(s[1..]);
      assert s == [s[0]] + s[1..];
      if |rest| > 1 {
        assert ([s[0]] + rest[0]) + "," + Rejoin(rest[1..]) == [s[0]] + (rest[0] + "," + Rejoin(rest[1..]));
      }
    }
  }

  /** The pieces with the empty ones at the end removed. */
  function DropTrailingEmpty(ps: seq<string>): (r: seq<string>)
    ensures r <= ps
    ensures |r| > 0 ==> r[|r| - 1] != ""
    ensures forall k :: |r| <= k < |ps| ==> ps[k] == ""
  {
    if |ps| == 0 || ps[|ps| - 1] != "" then ps else DropTrailingEmpty(ps[..|ps| - 1])
  }

  /** `String.split(",")`: without a comma the whole text is the one piece
      (even when empty); otherwise the pieces, less trailing empty ones. */
  function Split(s: string): (r: seq<string>)
    ensures ',' !in s ==> r == [s]
    ensures forall k :: 0 <= k < |r| ==> ',' !in r[k]
    ensures ',' in s ==> r <= Pieces(s) && (|r| > 0 ==> r[|r| - 1] != "")
  {
    if ',' !in s then [s] else DropTrailingEmpty(Pieces(s))
  }

  /** What `split` drops are empty pieces only, so its result followed by
      that many empty texts, rejoined with commas, is the text again. */
  lemma SplitRejoin(s: string)
    requires ',' in s
    ensures var r := Split(s);
      Rejoin(r + seq(|Pieces(s)| - |r|, _ => "")) == s
  {
    var ps, r := Pieces(s), Split(s);
    var tail := seq(|ps| - |r|, _ => "");
    assert r + tail == ps;
    PiecesRejoin(s);
  }

  /** `deserialize`: the tree read from the split text; tokens left over are
      ignored. */
  function Deserialize(s: string): (r: Result<Tree<string>, CodecError>)
    ensures r.Success? ==> Tokens(r.value) <= Split(s)
  {
    match ReadTree(Split(s))
    case Success((t, rest)) =>
      ReadIsTokens(Split(s));
      Success(t)
    case Failure(e) => Failure(e)
  }

  /** Splitting a joined list of comma-free tokens gives the tokens back
      followed by the empty piece after the last comma. */
  lemma {:induction false} PiecesOfJoin(ts: seq<string>)
    requires forall k :: 0 <= k < |ts| ==> ',' !in ts[k]
    ensures Pieces(Join(ts)) == ts + [""]
    decreases |ts|
  {
    if |ts| > 0 {
      var w, rest := ts[0], Join(ts[1..]);
      assert Join(ts) == w + ("," + rest);
      PiecesOfToken(w, rest);
      PiecesOfJoin(ts[1..]);
      assert [w] + (ts[1..] + [""]) == ts + [""];
    }
  }

  /** A comma-free token, a comma and a text split into the token and the
      text's pieces. */
  lemma {:induction false} PiecesOfToken(w: string, s: string)
    requires ',' !in w
    ensures Pieces(w + ("," + s)) == [w] + Pieces(s)
    decreases |w|
  {
    if |w| == 0 {
      assert w + ("," + s) == "," + s;
      assert ("," + s)[1..] == s;
    } else {
      assert (w + ("," + s))[1..] == w[1..] + ("," + s);
      PiecesOfToken(w[1..], s);
      assert [w[0]] + w[1..] == w;
    }
  }

  /** Every token of a clean tree's encoding is comma-free. */
  lemma {:induction false} TokensCommaFree(t: Tree<string>)
    requires Clean(t)
    ensures forall k :: 0 <= k < |Tokens(t)| ==> ',' !in Tokens(t)[k]
  {
    match t
    case Nil =>
    case Node(v, l, r) =>
      TokensCommaFree(l);
      TokensCommaFree(r);
  }

  /** `split` recovers exactly the tokens `serialize` wrote. */
  lemma SplitSerialized(t: Tree<string>)
    requires Clean(t)
    ensures Split(Serialize(t)) == Tokens(t)
  {
    TokensCommaFree(t);
    PiecesOfJoin(Tokens(t));
    TokensEndWithNull(t);
    var s := Serialize(t);
    assert s[|s| - 1] == ',';
    var ps := Tokens(t) + [""];
    assert ps[..|ps| - 1] == Tokens(t);
  }

  /** The round trip: `deserialize(serialize(t))` rebuilds `t`, so
      serializing again gives the same text. */
  lemma RoundTrip(t: Tree<string>)
    requires Clean(t)
    ensures Deserialize(Serialize(t)) == Success(t)
    ensures Serialize(Deserialize(Serialize(t)).value) == Serialize(t)
  {
    SplitSerialized(t);
    ReadTokens(t, []);
    assert Tokens(t) + [] == Tokens(t);
  }

  /** A serialization cut short after any number of its tokens (fewer than
      all) makes `deserialize` run out of tokens and throw. */
  lemma DeserializeTruncated(t: Tree<string>, k: nat)
    requires Clean(t) && k < |Tokens(t)|
    ensures Deserialize(Join(Tokens(t)[..k])) == Failure(NullPointer)
  {
    var ts := Tokens(t)[..k];
    if k == 0 {
      assert Join(ts) == "";
      assert Split("") == [""];
      assert ReadTree([""]) == Failure(NullPointer);
    } else {
      TokensCommaFree(t);
      PiecesOfJoin(ts);
      var s := Join(ts);
      assert s[|s| - 1] == ',';
      var ps := ts + [""];
      var r := DropTrailingEmpty(ps);
      assert Split(s) == r;
      assert |r| <= k;
      assert r == Tokens(t)[..|r|];
      ReadTruncated(t, |r|);
    }
  }
}
