/** Splitting, joining and searching strings, as boost::split, boost::join and std::string do. */
module Text {
  import opened Wrappers

  /** The position of the first `c`, or the length when there is none. */
  function IndexOf(s: string, c: char): (i: nat)
    ensures i <= |s|
    ensures c !in s[..i]
    ensures i < |s| ==> s[i] == c
  {
    if s == [] || s[0] == c then 0
    else
      assert s[..IndexOf(s[1..], c) + 1] == [s[0]] + s[1..][..IndexOf(s[1..], c)];
      IndexOf(s[1..], c) + 1
  }

  /** The position of the last `c`, if any. */
  function LastIndexOf(s: string, c: char): (r: Option<nat>)
    ensures r.None? <==> c !in s
    ensures r.Some? ==> r.value < |s| && s[r.value] == c && c !in s[r.value + 1..]
  {
    if s == [] then None
    else if s[|s| - 1] == c then Some(|s| - 1)
    else
      var r := LastIndexOf(s[..|s| - 1], c);
      assert s == s[..|s| - 1] + [s[|s| - 1]];
      if r.Some? then
        assert s[r.value + 1..] == s[..|s| - 1][r.value + 1..] + [s[|s| - 1]];
        r
      else r
  }

  lemma {:induction false} FirstSeparator(a: string, b: string, c: char)
    requires c !in a
    ensures IndexOf(a + [c] + b, c) == |a|
  {
    var s := a + [c] + b;
    if a != [] {
      FirstSeparator(a[1..], b, c);
      assert s[0] == a[0] && s[1..] == a[1..] + [c] + b;
    }
  }

  lemma {:induction false} LastSeparator(a: string, b: string, c: char)
    requires c !in b
    ensures LastIndexOf(a + [c] + b, c) == Some(|a|)
  {
    var s := a + [c] + b;
    if b == [] {
      assert s[|s| - 1] == c;
    } else {
      var b' := b[..|b| - 1];
      LastSeparator(a, b', c);
      assert s[|s| - 1] == b[|b| - 1] && s[..|s| - 1] == a + [c] + b';
    }
  }

  /** Text before and after the first separator is determined by the whole. */
  lemma FirstSeparatorUnique(a: string, b: string, a': string, b': string, c: char)
    requires c !in a && c !in a'
    requires a + [c] + b == a' + [c] + b'
    ensures a == a' && b == b'
  {
    FirstSeparator(a, b, c);
    FirstSeparator(a', b', c);
    var s := a + [c] + b;
    assert a == s[..|a|] && b == s[|a| + 1..];
    assert a' == s[..|a'|] && b' == s[|a'| + 1..];
  }

  lemma LastSeparatorUnique(a: string, b: string, a': string, b': string, c: char)
    requires c !in b && c !in b'
    requires a + [c] + b == a' + [c] + b'
    ensures a == a' && b == b'
  {
    LastSeparator(a, b, c);
    LastSeparator(a', b', c);
    var s := a + [c] + b;
    assert a == s[..|a|] && b == s[|a| + 1..];
    assert a' == s[..|a'|] && b' == s[|a'| + 1..];
  }

  /** boost::split with a one-character separator: never empty, keeps empty tokens. */
  function Split(s: string, c: char): (tokens: seq<string>)
    ensures |tokens| > 0
    decreases |s|
  {
    var i := IndexOf(s, c);
    if i == |s| then [s] else [s[..i]] + Split(s[i + 1..], c)
  }

  /** boost::join with a one-character separator. */
  function Join(tokens: seq<string>, c: char): (s: string) {
    if tokens == [] then ""
    else if |tokens| == 1 then tokens[0]
    else tokens[0] + [c] + Join(tokens[1..], c)
  }

  predicate FreeOf(tokens: seq<string>, c: char) {
    forall t :: t in tokens ==> c !in t
  }

  lemma {:induction false} JoinSplit(s: string, c: char)
    ensures Join(Split(s, c), c) == s
    ensures FreeOf(Split(s, c), c)
    decreases |s|
  {
    var i := IndexOf(s, c);
    if i < |s| {
      var rest := s[i + 1..];
      JoinSplit(rest, c);
      assert Split(s, c) == [s[..i]] + Split(rest, c);
      JoinCons(s[..i], Split(rest, c), c);
      assert s == s[..i] + [c] + rest;
    }
  }

  lemma JoinCons(token: string, tokens: seq<string>, c: char)
    requires tokens != []
    ensures Join([token] + tokens, c) == token + [c] + Join(tokens, c)
  {
    assert ([token] + tokens)[1..] == tokens;
  }

  lemma SplitCons(a: string, b: string, c: char)
    requires c !in a
    ensures Split(a + [c] + b, c) == [a] + Split(b, c)
  {
    var s := a + [c] + b;
    FirstSeparator(a, b, c);
    assert s[..|a|] == a && s[|a| + 1..] == b;
  }

  lemma SplitFree(a: string, c: char)
    requires c !in a
    ensures Split(a, c) == [a]
  {
  }

  lemma {:induction false} SplitJoin(tokens: seq<string>, c: char)
    requires tokens != [] && FreeOf(tokens, c)
    ensures Split(Join(tokens, c), c) == tokens
  {
    if |tokens| == 1 {
      assert tokens[0] in tokens;
      SplitFree(tokens[0], c);
    } else {
      assert tokens[0] in tokens;
      assert FreeOf(tokens[1..], c);
      SplitJoin(tokens[1..], c);
      SplitCons(tokens[0], Join(tokens[1..], c), c);
    }
  }

  /** Joining from the left, one token more. */
  lemma {:induction false} JoinNext(tokens: seq<string>, c: char, i: nat)
    requires 0 < i < |tokens|
    ensures Join(tokens[..i + 1], c) == Join(tokens[..i], c) + [c] + tokens[i]
    decreases i
  {
    var rest := tokens[1..];
    assert tokens[..i + 1][1..] == rest[..i] && tokens[..i][1..] == rest[..i - 1];
    if i > 1 {
      JoinNext(rest, c, i - 1);
      assert tokens[0] + [c] + (Join(rest[..i - 1], c) + [c] + tokens[i]) == tokens[0] + [c] + Join(rest[..i - 1], c) + [c] + tokens[i];
    }
  }

  lemma {:induction false} JoinFree(tokens: seq<string>, c: char, d: char)
    requires c != d && FreeOf(tokens, d)
    ensures d !in Join(tokens, c)
  {
    if |tokens| > 1 {
      JoinFree(tokens[1..], c, d);
      assert tokens[0] in tokens;
    } else if |tokens| == 1 {
      assert tokens[0] in tokens;
    }
  }

  lemma {:induction false} SplitFreeOf(s: string, c: char, d: char)
    requires d !in s
    ensures FreeOf(Split(s, c), d)
    decreases |s|
  {
    var i := IndexOf(s, c);
    if i < |s| {
      SplitFreeOf(s[i + 1..], c, d);
    }
  }
}
