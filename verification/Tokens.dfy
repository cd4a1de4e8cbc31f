/** Splitting option strings at a delimiter (`split` in `cachetest.cc`). */
module Tokens {
  import opened Wrappers

  ghost predicate At(s: string, del: string, i: nat) {
    i + |del| <= |s| && s[i..i + |del|] == del
  }

  /** The first occurrence of `del` in `s` at or after `from`: `std::string::find`. */
  ghost function First(s: string, del: string, from: nat): Option<nat>
    decreases |s| - from
  {
    if from + |del| > |s| then None
    else if At(s, del, from) then Some(from)
    else if from == |s| then None
    else First(s, del, from + 1)
  }

  lemma {:induction false} FirstInside(s: string, del: string, from: nat)
    ensures First(s, del, from).Some? ==>
              from <= First(s, del, from).value && At(s, del, First(s, del, from).value)
    decreases |s| - from
  {
    if from + |del| <= |s| && from < |s| {
      FirstInside(s, del, from + 1);
    }
  }

  lemma {:induction false} FirstMeaning(s: string, del: string, from: nat)
    ensures match First(s, del, from)
            case Some(k) => from <= k && At(s, del, k) && forall i :: from <= i < k ==> !At(s, del, i)
            case None => forall i :: from <= i ==> !At(s, del, i)
    decreases |s| - from
  {
    if from + |del| <= |s| && !At(s, del, from) && from < |s| {
      FirstMeaning(s, del, from + 1);
    }
  }

  method Find(s: string, del: string, from: nat) returns (it: Option<nat>)
    requires from <= |s|
    ensures it == First(s, del, from)
  {
    var i := from;
    while i + |del| <= |s|
      invariant from <= i <= |s| + 1 && First(s, del, from) == First(s, del, i)
      decreases |s| + 1 - i
    {
      if s[i..i + |del|] == del {
        return Some(i);
      }
      i := i + 1;
    }
    it := None;
  }

  /** The tokens of a string: cut at the first occurrence, then go on behind it. */
  ghost function SplitOf(s: string, del: string): (tokens: seq<string>)
    requires del != ""
    ensures tokens != []
    decreases |s|
  {
    FirstInside(s, del, 0);
    match First(s, del, 0)
    case None => [s]
    case Some(k) => [s[..k]] + SplitOf(s[k + |del|..], del)
  }

  ghost function Join(tokens: seq<string>, del: string): string
    requires tokens != []
  {
    if |tokens| == 1 then tokens[0] else tokens[0] + del + Join(tokens[1..], del)
  }

  /** A delimiter right behind `token` is the first one in sight. */
  ghost predicate CutAt(token: string, del: string) {
    First(token + del, del, 0) == Some(|token|)
  }

  /** Each token but the last is cut off by the first delimiter in sight, and the last contains
      none. */
  ghost predicate Leftmost(tokens: seq<string>, del: string)
    requires tokens != []
  {
    if |tokens| == 1 then First(tokens[0], del, 0) == None else CutAt(tokens[0], del) && Leftmost(tokens[1..], del)
  }

  lemma {:induction false} FirstShift(s: string, del: string, from: nat, k: nat)
    requires from <= |s| && k <= |s| - from
    ensures First(s, del, from + k) == match First(s[from..], del, k) case None => None case Some(i) => Some(from + i)
    decreases |s| - from - k
  {
    if from + k + |del| <= |s| {
      assert s[from..][k..k + |del|] == s[from + k..from + k + |del|];
      if !At(s, del, from + k) && from + k < |s| {
        FirstShift(s, del, from, k + 1);
      }
    }
  }

  /** What follows a delimiter has no influence on where the first one is. */
  lemma FirstIgnoresTail(a: string, del: string, tail: string)
    requires del != ""
    ensures First(a + del, del, 0) == First(a + del + tail, del, 0)
  {
    var s, t := a + del, a + del + tail;
    FirstMeaning(s, del, 0);
    FirstMeaning(t, del, 0);
    assert t[..|s|] == s;
    forall i | 0 <= i <= |a| ensures At(s, del, i) == At(t, del, i) {
      AtPrefix(t, del, |s|, i);
    }
    assert At(s, del, |a|);
  }

  lemma AtPrefix(s: string, del: string, n: nat, i: nat)
    requires i + |del| <= n <= |s|
    ensures At(s[..n], del, i) <==> At(s, del, i)
  {
    assert s[..n][i..i + |del|] == s[i..i + |del|];
  }

  lemma TokenIsFree(s: string, del: string, k: nat)
    requires del != "" && First(s, del, 0) == Some(k)
    ensures k + |del| <= |s| && First(s[..k], del, 0) == None
  {
    FirstMeaning(s, del, 0);
    FirstMeaning(s[..k], del, 0);
    forall i: nat ensures !At(s[..k], del, i) {
      if i + |del| <= k {
        AtPrefix(s, del, k, i);
      }
    }
  }

  /** Joining the tokens gives back the input, and no token contains the delimiter. */
  lemma {:induction false} SplitThenJoin(s: string, del: string)
    requires del != ""
    ensures Join(SplitOf(s, del), del) == s
    ensures forall i :: 0 <= i < |SplitOf(s, del)| ==> First(SplitOf(s, del)[i], del, 0) == None
    decreases |s|
  {
    FirstInside(s, del, 0);
    if First(s, del, 0).Some? {
      var k := First(s, del, 0).value;
      var rest := s[k + |del|..];
      SplitThenJoin(rest, del);
      var tokens := SplitOf(s, del);
      assert tokens[1..] == SplitOf(rest, del);
      assert s == s[..k] + del + rest;
      TokenIsFree(s, del, k);
    }
  }

  /** Splitting a join gives back the tokens exactly when they are cut leftmost.  With delimiters of
      several characters being free of the delimiter is not enough: see FreeIsNotEnough. */
  lemma {:induction false} JoinThenSplit(tokens: seq<string>, del: string)
    requires del != "" && tokens != []
    ensures SplitOf(Join(tokens, del), del) == tokens <==> Leftmost(tokens, del)
    decreases |tokens|
  {
    if |tokens| == 1 {
      FirstMeaning(tokens[0], del, 0);
      assert [tokens[0]] == tokens;
    } else {
      var a, rest := tokens[0], tokens[1..];
      var tail := Join(rest, del);
      var s := a + del + tail;
      JoinThenSplit(rest, del);
      FirstIgnoresTail(a, del, tail);
      FirstMeaning(s, del, 0);
      assert tokens == [a] + rest;
      var k := First(s, del, 0);
      assert At(s, del, |a|);
      if k == Some(|a|) {
        assert s[|a| + |del|..] == tail && s[..|a|] == a;
      }
    }
  }

  /** Joining "a" and "b" with "aa" gives "aaab", whose first token is empty. */
  lemma FreeIsNotEnough()
    ensures First("a", "aa", 0) == None && First("b", "aa", 0) == None
    ensures SplitOf(Join(["a", "b"], "aa"), "aa") != ["a", "b"]
  {
    JoinThenSplit(["a", "b"], "aa");
    FirstMeaning("a" + "aa", "aa", 0);
    assert At("a" + "aa", "aa", 0);
  }

  lemma FreeToken(t: string, c: char)
    requires c !in t
    ensures CutAt(t, [c]) && First(t, [c], 0) == None
  {
    FirstMeaning(t + [c], [c], 0);
    FirstMeaning(t, [c], 0);
    assert (t + [c])[|t|..|t| + 1] == [c];
    assert At(t + [c], [c], |t|);
    forall i: nat | i < |t| ensures !At(t, [c], i) && !At(t + [c], [c], i) {
      assert t[i..i + 1] == [t[i]] && (t + [c])[i..i + 1] == [t[i]];
      assert t[i] in t;
    }
  }

  lemma {:induction false} FreeTokens(tokens: seq<string>, c: char)
    requires tokens != [] && forall i :: 0 <= i < |tokens| ==> c !in tokens[i]
    ensures Leftmost(tokens, [c])
  {
    FreeToken(tokens[0], c);
    if |tokens| > 1 {
      FreeTokens(tokens[1..], c);
    }
  }

  /** With a one-character delimiter, being free of it is enough. */
  lemma OneCharacter(tokens: seq<string>, c: char)
    requires tokens != [] && forall i :: 0 <= i < |tokens| ==> c !in tokens[i]
    ensures SplitOf(Join(tokens, [c]), [c]) == tokens
  {
    FreeTokens(tokens, c);
    JoinThenSplit(tokens, [c]);
  }

  /** `tokens` come first in the split of `s`, and the rest is the split of what starts at `offset`. */
  ghost predicate Taken(s: string, del: string, offset: nat, tokens: seq<string>) {
    del != "" && offset <= |s| && SplitOf(s, del) == tokens + SplitOf(s[offset..], del)
  }

  lemma FirstToken(s: string, del: string)
    requires del != ""
    ensures Taken(s, del, 0, [])
  {
    assert s[0..] == s;
  }

  lemma LastToken(s: string, del: string, offset: nat, tokens: seq<string>)
    requires Taken(s, del, offset, tokens) && First(s, del, offset) == None
    ensures SplitOf(s, del) == tokens + [s[offset..]]
  {
    FirstShift(s, del, offset, 0);
  }

  lemma SplitStep(t: string, del: string, j: nat)
    requires del != "" && First(t, del, 0) == Some(j) && j + |del| <= |t|
    ensures SplitOf(t, del) == [t[..j]] + SplitOf(t[j + |del|..], del)
  {
  }

  lemma Slices(s: string, from: nat, n: nat)
    requires from + n <= |s|
    ensures s[from..][..n] == s[from..from + n] && s[from..][n..] == s[from + n..]
  {
  }

  lemma FirstOfRest(s: string, del: string, offset: nat, k: nat)
    requires offset <= |s| && First(s, del, offset) == Some(k)
    ensures offset <= k && First(s[offset..], del, 0) == Some(k - offset)
  {
    FirstInside(s, del, offset);
    FirstShift(s, del, offset, 0);
  }

  lemma OneToken(s: string, del: string, offset: nat, k: nat)
    requires del != "" && offset <= |s| && First(s, del, offset) == Some(k)
    ensures offset <= k && k + |del| <= |s|
    ensures SplitOf(s[offset..], del) == [s[offset..k]] + SplitOf(s[k + |del|..], del)
  {
    FirstInside(s, del, offset);
    FirstOfRest(s, del, offset, k);
    SplitStep(s[offset..], del, k - offset);
    Slices(s, offset, k - offset);
    Slices(s, offset, k - offset + |del|);
  }

  lemma NextToken(s: string, del: string, offset: nat, tokens: seq<string>, k: nat)
    requires Taken(s, del, offset, tokens) && First(s, del, offset) == Some(k)
    ensures offset <= k && k + |del| <= |s| && Taken(s, del, k + |del|, tokens + [s[offset..k]])
  {
    OneToken(s, del, offset, k);
    var token, rest := [s[offset..k]], SplitOf(s[k + |del|..], del);
    assert tokens + (token + rest) == tokens + token + rest;
  }

  /** `split`: for any non-empty delimiter it ends and returns the tokens of the string. */
  method Split(str: string, del: string) returns (tokens: seq<string>)
    requires del != ""
    ensures tokens == SplitOf(str, del)
    ensures Join(tokens, del) == str
    ensures forall i :: 0 <= i < |tokens| ==> First(tokens[i], del, 0) == None
  {
    tokens := [];
    var offset := 0;
    FirstToken(str, del);
    var it := Find(str, del, 0);
    while it.Some?
      invariant Taken(str, del, offset, tokens) && it == First(str, del, offset)
      decreases |str| - offset
    {
      assert offset <= |str|;
      NextToken(str, del, offset, tokens, it.value);
      tokens := tokens + [str[offset..it.value]];
      offset := offset + |tokens[|tokens| - 1]| + |del|;
      it := Find(str, del, offset);
    }
    assert offset <= |str|;
    LastToken(str, del, offset, tokens);
    tokens := tokens + [str[offset..]];
    SplitThenJoin(str, del);
  }
}
