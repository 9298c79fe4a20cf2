/** Cutting text at break characters, as `strtok_r` does. */
module Strtok {
  import opened SymbolModule

  predicate Solid(s: string, breaks: string) {
    forall c :: c in s ==> c !in breaks
  }

  function UpToBreak(s: string, breaks: string): (word: string)
    ensures word <= s && Solid(word, breaks)
    ensures |word| < |s| ==> s[|word|] in breaks
  {
    if s == [] || s[0] in breaks then [] else [s[0]] + UpToBreak(s[1..], breaks)
  }

  function SkipBreaks(s: string, breaks: string): (rest: string)
    ensures |rest| <= |s| && (rest != [] ==> rest[0] !in breaks)
  {
    if s == [] || s[0] !in breaks then s else SkipBreaks(s[1..], breaks)
  }

  /** The next token, if there is one, and where to go on: behind the break that ends it. */
  function Next(s: string, breaks: string): (r: (Option<string>, string))
    ensures r.0.None? ==> r.1 == []
    ensures r.0.Some? ==> r.0.value != [] && Solid(r.0.value, breaks) && |r.1| < |s|
  {
    var here := SkipBreaks(s, breaks);
    if here == [] then (None, [])
    else
      var word := UpToBreak(here, breaks);
      (Some(word), if |word| < |here| then here[|word| + 1..] else [])
  }

  /** All the tokens. */
  function Tokens(s: string, breaks: string): (tokens: seq<string>)
    decreases |s|
    ensures forall t :: t in tokens ==> t != [] && Solid(t, breaks)
  {
    if s == [] then []
    else if s[0] in breaks then Tokens(s[1..], breaks)
    else
      var word := UpToBreak(s, breaks);
      [word] + Tokens(s[|word|..], breaks)
  }

  lemma {:induction false} SkipKeepsTokens(s: string, breaks: string)
    ensures Tokens(SkipBreaks(s, breaks), breaks) == Tokens(s, breaks)
  {
    if s != [] && s[0] in breaks {
      SkipKeepsTokens(s[1..], breaks);
    }
  }

  /** Calling `strtok_r` again and again gives all the tokens. */
  lemma NextIsFirst(s: string, breaks: string)
    ensures var (token, rest) := Next(s, breaks);
      Tokens(s, breaks) == if token.None? then [] else [token.value] + Tokens(rest, breaks)
  {
    SkipKeepsTokens(s, breaks);
    var here := SkipBreaks(s, breaks);
    if here != [] {
      var word := UpToBreak(here, breaks);
      var left := here[|word|..];
      assert left != [] ==> left[0] in breaks && left[1..] == here[|word| + 1..];
    }
  }

  lemma {:induction false} UpToFirstBreak(a: string, b: string, breaks: string)
    requires b != [] && b[0] in breaks
    ensures UpToBreak(a + b, breaks) == UpToBreak(a, breaks)
  {
    if a == [] {
      assert a + b == b;
    } else {
      assert (a + b)[1..] == a[1..] + b;
      UpToFirstBreak(a[1..], b, breaks);
    }
  }

  /** A break separates. */
  lemma {:induction false} TokensApart(a: string, c: char, b: string, breaks: string)
    requires c in breaks
    ensures Tokens(a + [c] + b, breaks) == Tokens(a, breaks) + Tokens(b, breaks)
    decreases |a|
  {
    var s := a + [c] + b;
    if a == [] {
      assert s[1..] == b;
    } else if a[0] in breaks {
      assert s[1..] == a[1..] + [c] + b;
      TokensApart(a[1..], c, b, breaks);
    } else {
      assert s == a + ([c] + b);
      UpToFirstBreak(a, [c] + b, breaks);
      var word := UpToBreak(a, breaks);
      assert s[|word|..] == a[|word|..] + [c] + b;
      TokensApart(a[|word|..], c, b, breaks);
    }
  }

  lemma {:induction false} WholeWord(s: string, breaks: string)
    requires Solid(s, breaks)
    ensures UpToBreak(s, breaks) == s
  {
    if s != [] {
      WholeWord(s[1..], breaks);
    }
  }

  lemma OneToken(s: string, breaks: string)
    requires s != [] && Solid(s, breaks)
    ensures Tokens(s, breaks) == [s]
  {
    WholeWord(s, breaks);
    assert s[|s|..] == [];
  }

  /** The first token, and what `strtok_r` leaves for the next call. */
  lemma NextOf(word: string, c: char, rest: string, breaks: string)
    requires word != [] && Solid(word, breaks) && c in breaks
    ensures Next(word + [c] + rest, breaks) == (Some(word), rest)
  {
    var s := word + [c] + rest;
    assert s == word + ([c] + rest);
    UpToFirstBreak(word, [c] + rest, breaks);
    WholeWord(word, breaks);
    assert s[0] == word[0] && word[0] in word;
    assert s[|word| + 1..] == rest;
  }

  lemma NextOfLast(word: string, breaks: string)
    requires word != [] && Solid(word, breaks)
    ensures Next(word, breaks) == (Some(word), [])
  {
    WholeWord(word, breaks);
    assert word[0] in word;
  }
}
