/** Remote glob patterns of `bs cp` (bs-mesh-cli.h, glob_match): the recursive matcher accepts
    exactly the language its pattern denotes. */
module Glob {
  import opened Sequences

  /** What a pattern is made of, read left to right. */
  datatype Token = DirPrefix | AnyRun | NameRun | OneChar | Literal(c: char)

  function Tokens(pat: string): seq<Token> {
    if pat == "" then []
    else if |pat| >= 2 && pat[0] == '*' && pat[1] == '*' then
      if |pat| > 2 && pat[2] == '/' then [DirPrefix] + Tokens(pat[3..]) else [AnyRun] + Tokens(pat[2..])
    else if pat[0] == '*' then [NameRun] + Tokens(pat[1..])
    else if pat[0] == '?' then [OneChar] + Tokens(pat[1..])
    else [Literal(pat[0])] + Tokens(pat[1..])
  }

  /** The text one token stands for. */
  predicate Denotes(t: Token, s: string) {
    match t
    case DirPrefix => s == "" || s[|s| - 1] == '/'
    case AnyRun => true
    case NameRun => '/' !in s
    case OneChar => |s| == 1 && s[0] != '/'
    case Literal(c) => s == [c]
  }

  /** s splits into one piece per token, each piece being text its token stands for. */
  ghost predicate InLanguage(ts: seq<Token>, s: string) {
    exists parts: seq<string> :: Splits(ts, s, parts)
  }

  ghost predicate Splits(ts: seq<Token>, s: string, parts: seq<string>) {
    && |parts| == |ts|
    && Concat(parts) == s
    && forall i :: 0 <= i < |ts| ==> Denotes(ts[i], parts[i])
  }

  /** k characters of s go to the first token, the others to the rest. */
  ghost predicate FirstTakes(ts: seq<Token>, s: string, k: nat)
    requires ts != [] && k <= |s|
  {
    Denotes(ts[0], s[..k]) && InLanguage(ts[1..], s[k..])
  }

  lemma LanguageOfNothing(s: string)
    ensures InLanguage([], s) <==> s == ""
  {
    assert Splits([], "", []);
  }

  lemma LanguageByFirst(ts: seq<Token>, s: string)
    requires ts != []
    ensures InLanguage(ts, s) <==> exists k: nat :: k <= |s| && FirstTakes(ts, s, k)
  {
    if InLanguage(ts, s) {
      var parts :| Splits(ts, s, parts);
      var k := |parts[0]|;
      assert s[..k] == parts[0] && s[k..] == Concat(parts[1..]);
      assert Splits(ts[1..], s[k..], parts[1..]);
      assert FirstTakes(ts, s, k);
    }
    if k: nat :| k <= |s| && FirstTakes(ts, s, k) {
      var rest :| Splits(ts[1..], s[k..], rest);
      var parts := [s[..k]] + rest;
      assert parts[1..] == rest;
      assert Splits(ts, s, parts);
    }
  }

  lemma LiteralFirst(c: char, ts: seq<Token>, s: string)
    ensures InLanguage([Literal(c)] + ts, s) <==> s != "" && s[0] == c && InLanguage(ts, s[1..])
  {
    var all := [Literal(c)] + ts;
    LanguageByFirst(all, s);
    assert all[1..] == ts;
    forall k: nat | k <= |s|
      ensures FirstTakes(all, s, k) <==> k == 1 && s[0] == c && InLanguage(ts, s[1..])
    {
      if k == 1 { assert s[..1] == [s[0]]; }
    }
    if s != "" && s[0] == c && InLanguage(ts, s[1..]) {
      assert FirstTakes(all, s, 1);
    }
  }

  lemma OneCharFirst(ts: seq<Token>, s: string)
    ensures InLanguage([OneChar] + ts, s) <==> s != "" && s[0] != '/' && InLanguage(ts, s[1..])
  {
    var all := [OneChar] + ts;
    LanguageByFirst(all, s);
    assert all[1..] == ts;
    if s != "" && s[0] != '/' && InLanguage(ts, s[1..]) {
      assert FirstTakes(all, s, 1);
    }
  }

  /** The source's recursion; each loop tries every split its token allows. */
  method GlobMatch(pat: string, str: string) returns (accepted: bool)
    ensures accepted <==> InLanguage(Tokens(pat), str)
    decreases |pat|, 0
  {
    hide InLanguage;
    ghost var ts := Tokens(pat);
    if |pat| == 0 {
      LanguageOfNothing(str);
      return |str| == 0;
    }
    LanguageByFirst(ts, str);
    if |pat| >= 2 && pat[0] == '*' && pat[1] == '*' {
      var rest := pat[2..];
      if |rest| > 0 && rest[0] == '/' {
        accepted := MatchAfterDirs(rest, str);
      } else {
        accepted := MatchAfterAny(rest, str);
      }
      return;
    }
    if pat[0] == '*' {
      accepted := MatchAfterName(pat[1..], str);
      return;
    }
    assert ts[1..] == Tokens(pat[1..]);
    if pat[0] == '?' {
      OneCharFirst(Tokens(pat[1..]), str);
      if |str| == 0 || str[0] == '/' { return false; }
      accepted := GlobMatch(pat[1..], str[1..]);
      return;
    }
    LiteralFirst(pat[0], Tokens(pat[1..]), str);
    if |str| == 0 || str[0] != pat[0] { return false; }
    accepted := GlobMatch(pat[1..], str[1..]);
  }

  lemma TokensAfterSlash(rest: string)
    requires rest != "" && rest[0] == '/'
    ensures Tokens(rest) == [Literal('/')] + Tokens(rest[1..])
  {
  }

  lemma NoDirs(ts: seq<Token>, s: string)
    ensures FirstTakes([DirPrefix] + ts, s, 0) <==> InLanguage(ts, s)
  {
    assert ([DirPrefix] + ts)[1..] == ts && s[0..] == s;
  }

  lemma DirsUpTo(ts: seq<Token>, s: string, i: nat)
    requires i < |s|
    ensures FirstTakes([DirPrefix] + ts, s, i + 1) <==> s[i] == '/' && InLanguage(ts, s[i + 1..])
    ensures FirstTakes([DirPrefix] + ts, s, i + 1) <==> InLanguage([Literal('/')] + ts, s[i..])
  {
    assert ([DirPrefix] + ts)[1..] == ts;
    LiteralFirst('/', ts, s[i..]);
    assert s[i..][1..] == s[i + 1..];
  }

  /** "**" and a slash: zero directories, or any prefix that ends at a slash. */
  method MatchAfterDirs(rest: string, str: string) returns (accepted: bool)
    requires rest != "" && rest[0] == '/'
    ensures accepted <==> InLanguage([DirPrefix] + Tokens(rest[1..]), str)
    decreases |rest|, 1
  {
    hide *;
    TokensAfterSlash(rest);
    ghost var ts := Tokens(rest[1..]);
    ghost var all := [DirPrefix] + ts;
    assert all[1..] == ts;
    LanguageByFirst(all, str);
    var zero := GlobMatch(rest[1..], str);
    NoDirs(ts, str);
    if zero { return true; }
    for i := 0 to |str|
      invariant forall k: nat :: k <= i ==> !FirstTakes(all, str, k)
    {
      DirsUpTo(ts, str, i);
      if str[i] == '/' {
        var after := GlobMatch(rest[1..], str[i + 1..]);
        if after { return true; }
      }
      var here := GlobMatch(rest, str[i..]);
      if here { return true; }
    }
    return false;
  }

  method MatchAfterAny(rest: string, str: string) returns (accepted: bool)
    ensures accepted <==> InLanguage([AnyRun] + Tokens(rest), str)
    decreases |rest|, 1
  {
    hide InLanguage;
    ghost var all := [AnyRun] + Tokens(rest);
    assert all[1..] == Tokens(rest);
    LanguageByFirst(all, str);
    for i := 0 to |str| + 1
      invariant forall k: nat :: k < i ==> !FirstTakes(all, str, k)
    {
      var here := GlobMatch(rest, str[i..]);
      if here {
        assert FirstTakes(all, str, i);
        return true;
      }
    }
    return false;
  }

  method MatchAfterName(rest: string, str: string) returns (accepted: bool)
    ensures accepted <==> InLanguage([NameRun] + Tokens(rest), str)
    decreases |rest|, 1
  {
    hide InLanguage;
    ghost var all := [NameRun] + Tokens(rest);
    assert all[1..] == Tokens(rest);
    LanguageByFirst(all, str);
    for i := 0 to |str| + 1
      invariant i <= |str| ==> '/' !in str[..i]
      invariant forall k: nat :: k < i ==> !FirstTakes(all, str, k)
    {
      var here := GlobMatch(rest, str[i..]);
      if here {
        assert FirstTakes(all, str, i);
        return true;
      }
      if i < |str| && str[i] == '/' {
        forall k: nat | k <= |str| ensures !FirstTakes(all, str, k) {
          if k > i { assert str[..k][i] == '/'; }
        }
        break;
      }
    }
    return false;
  }
}
