/** Rewriting a field's filter from the field's name to the struct member (ebpf/fields.go: filterConvV4/V6), as C sees
    it: on tokens. */
module Filters {
  import opened Text

  // ---------------------------------------------------------------- strings.Replace and C words

  predicate StartsWith(s: string, prefix: string) {
    |prefix| <= |s| && s[..|prefix|] == prefix
  }

  /** strings.Replace(s, from, to, -1) for a non-empty `from`: leftmost matches, not overlapping. */
  function Replace(s: string, from: string, to: string): string
    requires from != ""
  {
    if s == "" then ""
    else if StartsWith(s, from) then to + Replace(s[|from|..], from, to)
    else [s[0]] + Replace(s[1..], from, to)
  }

  predicate Contains(s: string, sub: string) {
    exists i :: 0 <= i <= |s| && StartsWith(s[i..], sub)
  }

  predicate WordChar(c: char) {
    'a' <= c <= 'z' || 'A' <= c <= 'Z' || IsDigit(c) || c == '_'
  }

  predicate IsWord(s: string) {
    s != "" && forall i :: 0 <= i < |s| ==> WordChar(s[i])
  }

  function RunLength(s: string): (n: nat)
    ensures n <= |s|
    ensures forall i :: 0 <= i < n ==> WordChar(s[i])
    ensures n < |s| ==> !WordChar(s[n])
  {
    if s == "" || !WordChar(s[0]) then 0 else 1 + RunLength(s[1..])
  }

  function FirstToken(s: string): (t: string)
    requires s != ""
    ensures t != "" && |t| <= |s| && t == s[..|t|]
  {
    var n := RunLength(s);
    if n == 0 then s[..1] else s[..n]
  }

  /** Identifiers and numbers are longest runs of word characters; every other character stands alone. */
  function Tokens(s: string): seq<string> {
    if s == "" then [] else [FirstToken(s)] + Tokens(s[|FirstToken(s)|..])
  }

  /** What rewriting should do: put `to` for every token `name`, and touch nothing else. */
  function Renamed(tokens: seq<string>, name: string, to: seq<string>): seq<string> {
    if tokens == [] then []
    else (if tokens[0] == name then to else [tokens[0]]) + Renamed(tokens[1..], name, to)
  }

  /** The name occurs only as a whole token. */
  predicate OnlyWhole(tokens: seq<string>, name: string) {
    forall i :: 0 <= i < |tokens| && Contains(tokens[i], name) ==> tokens[i] == name
  }

  // ---------------------------------------------------------------- Replace works token by token

  /** No match of a word straddles the end of a token. */
  lemma {:induction false} ReplaceSplits(t: string, rest: string, from: string, to: string)
    requires IsWord(from)
    requires IsWord(t) || (|t| == 1 && !WordChar(t[0])) || t == ""
    requires IsWord(t) && rest != "" ==> !WordChar(rest[0])
    ensures Replace(t + rest, from, to) == Replace(t, from, to) + Replace(rest, from, to)
    decreases |t|
  {
    var s := t + rest;
    if t == "" {
      assert s == rest;
    } else {
      NoStraddle(t, rest, from);
      if StartsWith(t, from) {
        assert s[|from|..] == t[|from|..] + rest;
        ReplaceSplits(t[|from|..], rest, from, to);
        ConcatAssoc(to, Replace(t[|from|..], from, to), Replace(rest, from, to));
      } else {
        assert s[1..] == t[1..] + rest;
        ReplaceSplits(t[1..], rest, from, to);
        ConcatAssoc([t[0]], Replace(t[1..], from, to), Replace(rest, from, to));
      }
    }
  }

  lemma NoStraddle(t: string, rest: string, from: string)
    requires IsWord(from) && t != ""
    requires IsWord(t) || (|t| == 1 && !WordChar(t[0]))
    requires IsWord(t) && rest != "" ==> !WordChar(rest[0])
    ensures StartsWith(t + rest, from) <==> StartsWith(t, from)
  {
    var s := t + rest;
    if |from| <= |t| {
      assert s[..|from|] == t[..|from|];
    } else if |from| <= |s| {
      assert from[..][|t|] == from[|t|] && s[..|from|][|t|] == rest[0];
      assert s[..|from|][0] == t[0];
    }
  }

  lemma {:induction false} ReplaceAbsent(s: string, from: string, to: string)
    requires from != "" && !Contains(s, from)
    ensures Replace(s, from, to) == s
  {
    if s != "" {
      assert s[0..] == s;
      forall i | 0 <= i <= |s| - 1
        ensures !StartsWith(s[1..][i..], from)
      {
        assert s[1..][i..] == s[i + 1..];
      }
      ReplaceAbsent(s[1..], from, to);
      assert [s[0]] + s[1..] == s;
    }
  }

  lemma ReplaceWhole(from: string, to: string)
    requires from != ""
    ensures Replace(from, from, to) == to
  {
  }

  lemma {:induction false} ReplaceGrows(s: string, from: string, to: string)
    requires from != "" && |from| < |to|
    ensures |Replace(s, from, to)| >= |s|
    ensures Contains(s, from) ==> |Replace(s, from, to)| > |s|
  {
    if s != "" {
      if StartsWith(s, from) {
        ReplaceGrows(s[|from|..], from, to);
      } else {
        ReplaceGrows(s[1..], from, to);
        if Contains(s, from) {
          var i :| 0 <= i <= |s| && StartsWith(s[i..], from);
          assert s[0..] == s;
          assert s[1..][i - 1..] == s[i..];
        }
      }
    } else if Contains(s, from) {
      assert false;
    }
  }

  lemma FirstTokenIsMaximal(s: string)
    requires s != ""
    ensures var t := FirstToken(s);
            var rest := s[|t|..];
            && s == t + rest
            && (IsWord(t) || (|t| == 1 && !WordChar(t[0])))
            && (IsWord(t) && rest != "" ==> !WordChar(rest[0]))
  {
  }

  // ---------------------------------------------------------------- tokens of a concatenation

  /** Tokens do not merge across a point where one side is not a word character. */
  lemma {:induction false} TokensSplit(a: string, b: string)
    requires a == "" || b == "" || !WordChar(a[|a| - 1]) || !WordChar(b[0])
    ensures Tokens(a + b) == Tokens(a) + Tokens(b)
    decreases |a|
  {
    if a == "" {
      assert a + b == b;
    } else if b == "" {
      assert a + b == a;
    } else {
      var t := FirstToken(a);
      SameFirstToken(a, b);
      assert (a + b)[|t|..] == a[|t|..] + b;
      TokensSplit(a[|t|..], b);
      ConcatAssoc([t], Tokens(a[|t|..]), Tokens(b));
    }
  }

  lemma SameFirstToken(a: string, b: string)
    requires a != "" && b != "" && (!WordChar(a[|a| - 1]) || !WordChar(b[0]))
    ensures FirstToken(a + b) == FirstToken(a)
  {
  }

  /** The edges of a rewritten text are word characters exactly where those of the original were. */
  lemma {:induction false} FirstCharOfReplace(s: string, from: string, to: string)
    requires IsWord(from) && to != "" && WordChar(to[0])
    ensures (s == "") == (Replace(s, from, to) == "")
    ensures s != "" ==> (WordChar(Replace(s, from, to)[0]) <==> WordChar(s[0]))
  {
  }

  // ---------------------------------------------------------------- the rewriting is right

  function TotalLength(tokens: seq<string>): nat {
    if tokens == [] then 0 else |tokens[0]| + TotalLength(tokens[1..])
  }

  lemma {:induction false} TotalLengthConcat(a: seq<string>, b: seq<string>)
    ensures TotalLength(a + b) == TotalLength(a) + TotalLength(b)
  {
    if a == [] {
      assert a + b == b;
    } else {
      assert (a + b)[1..] == a[1..] + b;
      TotalLengthConcat(a[1..], b);
    }
  }

  lemma {:induction false} TokensKeepLength(s: string)
    ensures TotalLength(Tokens(s)) == |s|
  {
    if s != "" {
      TokensKeepLength(s[|FirstToken(s)|..]);
    }
  }

  lemma OnlyWholeSplits(t: string, tokens: seq<string>, name: string)
    ensures OnlyWhole([t] + tokens, name) <==> (Contains(t, name) ==> t == name) && OnlyWhole(tokens, name)
  {
    var all := [t] + tokens;
    if OnlyWhole(all, name) {
      assert all[0] == t;
      forall i | 0 <= i < |tokens| && Contains(tokens[i], name)
        ensures tokens[i] == name
      {
        assert all[i + 1] == tokens[i];
      }
    }
  }

  /** What happens to one token. */
  lemma TokenOfReplaced(t: string, name: string, to: string)
    requires name != "" && |name| < |to|
    ensures t == name ==> Contains(t, name) && Replace(t, name, to) == to
    ensures !Contains(t, name) ==> Replace(t, name, to) == t
    ensures Contains(t, name) ==> |Replace(t, name, to)| > |t|
  {
    if t == name {
      assert t[0..] == name;
      ReplaceWhole(name, to);
    }
    if !Contains(t, name) {
      ReplaceAbsent(t, name, to);
    }
    ReplaceGrows(t, name, to);
  }

  lemma TokensOfToken(t: string)
    requires IsWord(t) || (|t| == 1 && !WordChar(t[0]))
    ensures Tokens(t) == [t]
  {
    var n := RunLength(t);
    assert FirstToken(t) == t;
    assert t[|t|..] == "";
    assert Tokens("") == [];
  }

  /** If the name occurs only as a whole token, rewriting renames exactly those tokens; otherwise it rewrites more. */
  lemma {:induction false} ReplaceByTokens(s: string, name: string, to: string)
    requires IsWord(name) && |name| < |to| && WordChar(to[0]) && WordChar(to[|to| - 1])
    ensures var renamed := Renamed(Tokens(s), name, Tokens(to));
            if OnlyWhole(Tokens(s), name) then Tokens(Replace(s, name, to)) == renamed
            else |Replace(s, name, to)| > TotalLength(renamed)
    decreases |s|
  {
    if s != "" {
      var t := FirstToken(s);
      var rest := s[|t|..];
      FirstTokenIsMaximal(s);
      ReplaceSplits(t, rest, name, to);
      ReplaceByTokens(rest, name, to);
      StepByToken(t, rest, name, to);
      assert Tokens(s)[1..] == Tokens(rest);
    }
  }

  lemma StepByToken(t: string, rest: string, name: string, to: string)
    requires IsWord(name) && |name| < |to| && WordChar(to[0]) && WordChar(to[|to| - 1])
    requires IsWord(t) || (|t| == 1 && !WordChar(t[0]))
    requires IsWord(t) && rest != "" ==> !WordChar(rest[0])
    requires var renamed := Renamed(Tokens(rest), name, Tokens(to));
             if OnlyWhole(Tokens(rest), name) then Tokens(Replace(rest, name, to)) == renamed
             else |Replace(rest, name, to)| > TotalLength(renamed)
    ensures var renamed := (if t == name then Tokens(to) else [t]) + Renamed(Tokens(rest), name, Tokens(to));
            var replaced := Replace(t, name, to) + Replace(rest, name, to);
            if OnlyWhole([t] + Tokens(rest), name) then Tokens(replaced) == renamed
            else |replaced| > TotalLength(renamed)
  {
    var head := if t == name then Tokens(to) else [t];
    OnlyWholeSplits(t, Tokens(rest), name);
    TokenOfReplaced(t, name, to);
    TotalLengthConcat(head, Renamed(Tokens(rest), name, Tokens(to)));
    TokensKeepLength(to);
    TokensKeepLength(t);
    TokensOfToken(t);
    if OnlyWhole([t] + Tokens(rest), name) {
      FirstCharOfReplace(rest, name, to);
      TokensSplit(Replace(t, name, to), Replace(rest, name, to));
    } else {
      RenamedIsShorter(rest, name, to);
    }
  }

  /** Renaming whole tokens never gives more text than rewriting every occurrence. */
  lemma RenamedIsShorter(rest: string, name: string, to: string)
    requires IsWord(name) && |name| < |to|
    requires var renamed := Renamed(Tokens(rest), name, Tokens(to));
             if OnlyWhole(Tokens(rest), name) then Tokens(Replace(rest, name, to)) == renamed
             else |Replace(rest, name, to)| > TotalLength(renamed)
    ensures |Replace(rest, name, to)| >= TotalLength(Renamed(Tokens(rest), name, Tokens(to)))
  {
    TokensKeepLength(Replace(rest, name, to));
  }

  /** Rewriting a filter renames exactly the tokens that are the name if and only if no other token contains the name.
      */
  lemma ReplaceRenames(s: string, name: string, to: string)
    requires IsWord(name) && |name| < |to| && WordChar(to[0]) && WordChar(to[|to| - 1])
    ensures Tokens(Replace(s, name, to)) == Renamed(Tokens(s), name, Tokens(to)) <==> OnlyWhole(Tokens(s), name)
  {
    ReplaceByTokens(s, name, to);
    TokensKeepLength(Replace(s, name, to));
  }

  /** Replacing a name by itself changes nothing. */
  lemma {:induction false} ReplaceSame(s: string, name: string)
    requires name != ""
    ensures Replace(s, name, name) == s
  {
    if s != "" {
      if StartsWith(s, name) {
        ReplaceSame(s[|name|..], name);
        assert s == s[..|name|] + s[|name|..];
      } else {
        ReplaceSame(s[1..], name);
        assert s == [s[0]] + s[1..];
      }
    }
  }
}
