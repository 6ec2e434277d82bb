/** What a filter says (ebpf/fields.go: filterConvV4/V6; tcpdog/helper.go: validateFields): a C condition is evaluated
    from its tokens, where the name of a struct member stands for the member's value. Rewriting a filter keeps that
    meaning. */
module Atoms {
  import opened Text
  import opened Filters

  /** What the evaluation of a condition gets to see: values, and all other tokens as they are. */
  datatype Atom<V> = Value(v: V) | Token(text: string)

  /** Names bound to a value stand for it; `data.member` stands for the member's value in the record. */
  function Read<V>(tokens: seq<string>, bound: map<string, V>, data: string, rec: map<string, V>): (atoms: seq<Atom<V>>)
    ensures tokens != [] ==> atoms != []
  {
    if tokens == [] then []
    else if tokens[0] in bound then [Value(bound[tokens[0]])] + Read(tokens[1..], bound, data, rec)
    else if IsMember(tokens, data, rec) then [Value(rec[tokens[2]])] + Read(tokens[3..], bound, data, rec)
    else [Token(tokens[0])] + Read(tokens[1..], bound, data, rec)
  }

  predicate IsMember<V>(tokens: seq<string>, data: string, rec: map<string, V>) {
    |tokens| >= 3 && tokens[0] == data && tokens[1] == "." && tokens[2] in rec
  }

  predicate EndsWith(s: string, end: string) {
    |end| <= |s| && s[|s| - |end|..] == end
  }

  /** A field's name cannot be confused with the record or its members. */
  ghost predicate Apart<V>(name: string, data: string, rec: map<string, V>) {
    && IsWord(name) && IsWord(data) && |data| > 1 && !Contains(data, name)
    && forall m :: m in rec ==> IsWord(m) && !Contains(m, name) && !EndsWith(m, data)
  }

  lemma ApartMeans<V>(name: string, data: string, rec: map<string, V>)
    requires Apart(name, data, rec)
    ensures name != data && name != "." && name !in rec && data !in rec
    ensures data != "." && "." !in rec
  {
    assert !WordChar("."[0]) && name[0..] == name;
    assert StartsWith(name[0..], name);
    assert name in rec ==> Contains(name, name);
    assert data in rec ==> EndsWith(data, data);
    assert data == name ==> Contains(data, name);
  }

  // ---------------------------------------------------------------- renaming whole tokens keeps the meaning

  lemma RenamedHead(tokens: seq<string>, name: string, to: seq<string>)
    requires tokens != []
    ensures Renamed(tokens, name, to)
         == (if tokens[0] == name then to else [tokens[0]]) + Renamed(tokens[1..], name, to)
  {
  }

  /** With every token `name` renamed to the member, reading gives what the original gives with the name bound to the
      member's value. */
  lemma {:induction false} RenamedReads<V>(tokens: seq<string>, name: string, data: string, member: string,
                                           rec: map<string, V>, value: V)
    requires Apart(name, data, rec) && (name in tokens ==> member in rec && rec[member] == value)
    ensures Read(Renamed(tokens, name, [data, ".", member]), map[], data, rec)
         == Read(tokens, map[name := value], data, rec)
    decreases |tokens|
  {
    var to := [data, ".", member];
    if tokens != [] {
      var rest := Renamed(tokens[1..], name, to);
      ApartMeans(name, data, rec);
      RenamedReads(tokens[1..], name, data, member, rec, value);
      if tokens[0] == name {
        assert (to + rest)[3..] == rest;
      } else {
        var all := [tokens[0]] + rest;
        assert all[1..] == rest;
        RenamedMember(tokens, name, data, member, rec);
        if IsMember(tokens, data, rec) {
          RenamedReads(tokens[3..], name, data, member, rec, value);
        }
      }
    }
  }

  /** Renaming neither makes nor breaks the mention of a member. */
  lemma RenamedMember<V>(tokens: seq<string>, name: string, data: string, member: string, rec: map<string, V>)
    requires Apart(name, data, rec) && tokens != [] && tokens[0] != name
    ensures var all := Renamed(tokens, name, [data, ".", member]);
            && (IsMember(all, data, rec) <==> IsMember(tokens, data, rec))
            && (IsMember(tokens, data, rec) ==>
                  all[2] == tokens[2] && all[3..] == Renamed(tokens[3..], name, [data, ".", member]))
  {
    var to := [data, ".", member];
    ApartMeans(name, data, rec);
    RenamedHead(tokens, name, to);
    if |tokens| >= 2 {
      RenamedHead(tokens[1..], name, to);
      if |tokens| >= 3 && tokens[1] != name {
        RenamedHead(tokens[2..], name, to);
        assert tokens[2..][1..] == tokens[3..];
        var third := if tokens[2] == name then to else [tokens[2]];
        assert Renamed(tokens, name, to) == [tokens[0]] + ([tokens[1]] + (third + Renamed(tokens[3..], name, to)));
      }
    }
  }

  // ---------------------------------------------------------------- anything else changes it

  lemma ConsDiffer<T>(x: T, a: seq<T>, b: seq<T>)
    requires a != b
    ensures [x] + a != [x] + b
  {
    assert ([x] + a)[1..] == a && ([x] + b)[1..] == b;
  }

  /** The first of two token lists that read differently from some point on; `first` and `second` begin there. */
  ghost predicate Diverge<V>(first: seq<string>, second: seq<string>, name: string, data: string,
                             rec: map<string, V>, value: V)
  {
    && first != [] && second != []
    && Read(first, map[name := value], data, rec)[0] != Read(second, map[], data, rec)[0]
    && first[0] != "." && second[0] !in rec && second[0] != "."
  }

  /** No mention of a member runs over from `before` into `first`. */
  predicate NoSpill<V>(before: seq<string>, first: seq<string>, data: string, rec: map<string, V>)
    requires first != []
  {
    first[0] in rec ==> !(|before| >= 2 && before[|before| - 2] == data && before[|before| - 1] == ".")
  }

  /** The tokens before that point do not mention a member across it. */
  lemma NoMemberAcross<V>(before: seq<string>, first: seq<string>, second: seq<string>,
                          name: string, data: string, member: string, rec: map<string, V>, value: V)
    requires Apart(name, data, rec) && before != [] && before[0] != name
        && Diverge(first, second, name, data, rec, value) && NoSpill(before, first, data, rec)
    ensures var to := [data, ".", member];
            && (IsMember(before + first, data, rec) <==> IsMember(before, data, rec))
            && (IsMember(Renamed(before, name, to) + second, data, rec) <==> IsMember(before, data, rec))
  {
    var to := [data, ".", member];
    ApartMeans(name, data, rec);
    RenamedMember(before, name, data, member, rec);
    RenamedHead(before, name, to);
    var renamed := Renamed(before, name, to);
    if |before| >= 2 {
      RenamedHead(before[1..], name, to);
      if before[1] == name {
        assert renamed[1] == data;
      } else {
        assert renamed[1] == before[1];
        if |before| == 2 {
          assert renamed == before && (renamed + second)[2] == second[0];
        } else {
          RenamedHead(before[2..], name, to);
          assert |renamed| >= 3;
        }
      }
    } else {
      assert renamed == before && (renamed + second)[1] == second[0];
    }
  }

  /** Two lists that begin alike and then differ read differently. */
  lemma DifferAfterName<V>(a: seq<string>, b: seq<string>, name: string, data: string, member: string,
                           rec: map<string, V>, value: V)
    requires data != name && member in rec && rec[member] == value
    requires Read(a, map[name := value], data, rec) != Read(b, map[], data, rec)
    ensures Read([name] + a, map[name := value], data, rec) != Read([data, ".", member] + b, map[], data, rec)
  {
    assert ([name] + a)[1..] == a && ([data, ".", member] + b)[3..] == b;
    ConsDiffer(Value(value), Read(a, map[name := value], data, rec), Read(b, map[], data, rec));
  }

  lemma DifferAfterMember<V>(a: seq<string>, b: seq<string>, name: string, data: string, m: string,
                             rec: map<string, V>, value: V)
    requires data != name && m in rec
    requires Read(a, map[name := value], data, rec) != Read(b, map[], data, rec)
    ensures Read([data, ".", m] + a, map[name := value], data, rec) != Read([data, ".", m] + b, map[], data, rec)
  {
    assert ([data, ".", m] + a)[3..] == a && ([data, ".", m] + b)[3..] == b;
    ConsDiffer(Value(rec[m]), Read(a, map[name := value], data, rec), Read(b, map[], data, rec));
  }

  lemma DifferAfterToken<V>(t: string, a: seq<string>, b: seq<string>, name: string, data: string,
                            rec: map<string, V>, value: V)
    requires t != name && !IsMember([t] + a, data, rec) && !IsMember([t] + b, data, rec)
    requires Read(a, map[name := value], data, rec) != Read(b, map[], data, rec)
    ensures Read([t] + a, map[name := value], data, rec) != Read([t] + b, map[], data, rec)
  {
    assert ([t] + a)[1..] == a && ([t] + b)[1..] == b;
    ConsDiffer(Token(t), Read(a, map[name := value], data, rec), Read(b, map[], data, rec));
  }

  lemma HeadAndMore<T>(h: seq<T>, a: seq<T>, b: seq<T>)
    ensures (h + a) + b == h + (a + b)
  {
  }

  lemma FirstThree<T>(s: seq<T>)
    requires |s| >= 3
    ensures s == [s[0], s[1], s[2]] + s[3..]
  {
  }

  lemma {:induction false} ReadsDiffer<V>(before: seq<string>, first: seq<string>, second: seq<string>,
                                          name: string, data: string, member: string, rec: map<string, V>, value: V)
    requires Apart(name, data, rec) && (name in before ==> member in rec && rec[member] == value)
    requires Diverge(first, second, name, data, rec, value) && NoSpill(before, first, data, rec)
    ensures Read(before + first, map[name := value], data, rec)
         != Read(Renamed(before, name, [data, ".", member]) + second, map[], data, rec)
    decreases |before|, 1
  {
    var to := [data, ".", member];
    if before == [] {
      assert before + first == first && Renamed(before, name, to) + second == second;
    } else {
      var h, rest := before[0], before[1..];
      assert before == [h] + rest;
      ApartMeans(name, data, rec);
      RenamedHead(before, name, to);
      ReadsDiffer(rest, first, second, name, data, member, rec, value);
      HeadAndMore([h], rest, first);
      if h == name {
        HeadAndMore(to, Renamed(rest, name, to), second);
        DifferAfterName(rest + first, Renamed(rest, name, to) + second, name, data, member, rec, value);
      } else {
        NoMemberAcross(before, first, second, name, data, member, rec, value);
        HeadAndMore([h], Renamed(rest, name, to), second);
        if IsMember(before, data, rec) {
          DifferPastMember(before, first, second, name, data, member, rec, value);
        } else {
          DifferAfterToken(h, rest + first, Renamed(rest, name, to) + second, name, data, rec, value);
        }
      }
    }
  }

  lemma {:induction false} DifferPastMember<V>(before: seq<string>, first: seq<string>, second: seq<string>,
                                               name: string, data: string, member: string,
                                               rec: map<string, V>, value: V)
    requires Apart(name, data, rec) && (name in before ==> member in rec && rec[member] == value)
    requires Diverge(first, second, name, data, rec, value) && NoSpill(before, first, data, rec)
    requires IsMember(before, data, rec) && before[0] != name
    ensures Read(before + first, map[name := value], data, rec)
         != Read(Renamed(before, name, [data, ".", member]) + second, map[], data, rec)
    decreases |before|, 0
  {
    var to := [data, ".", member];
    var head, rest := [data, ".", before[2]], before[3..];
    var renamed := Renamed(before, name, to);
    ApartMeans(name, data, rec);
    RenamedMember(before, name, data, member, rec);
    ReadsDiffer(rest, first, second, name, data, member, rec, value);
    FirstThree(before);
    FirstThree(renamed);
    HeadAndMore(head, rest, first);
    HeadAndMore(head, Renamed(rest, name, to), second);
    DifferAfterMember(rest + first, Renamed(rest, name, to) + second, name, data, before[2], rec, value);
  }

  /** No match begins before the position. */
  predicate NotBefore(t: string, name: string, k: nat) {
    forall i :: 0 <= i < k && i <= |t| ==> !StartsWith(t[i..], name)
  }

  /** The first match in a token, and what rewriting makes of it. */
  lemma {:induction false} FirstMatch(t: string, name: string, to: string) returns (x: string, z: string)
    requires name != "" && Contains(t, name)
    ensures t == x + name + z && Replace(t, name, to) == x + to + Replace(z, name, to)
    ensures NotBefore(t, name, |x|)
  {
    if StartsWith(t, name) {
      x, z := "", t[|name|..];
    } else {
      ContainedLater(t, name);
      var y;
      y, z := FirstMatch(t[1..], name, to);
      x := [t[0]] + y;
      OneFurther(t, name, to, y, z);
      NotBeforeLater(t, name, |y|);
    }
  }

  lemma OneFurther(t: string, name: string, to: string, y: string, z: string)
    requires name != "" && t != "" && !StartsWith(t, name)
    requires t[1..] == y + name + z && Replace(t[1..], name, to) == y + to + Replace(z, name, to)
    ensures var x := [t[0]] + y; t == x + name + z && Replace(t, name, to) == x + to + Replace(z, name, to)
  {
    Prepend(t[0], y, name, z);
    Prepend(t[0], y, to, Replace(z, name, to));
    FirstAndRest(t);
  }

  lemma NotBeforeLater(t: string, name: string, k: nat)
    requires t != "" && !StartsWith(t, name) && NotBefore(t[1..], name, k)
    ensures NotBefore(t, name, k + 1)
  {
    assert t[0..] == t;
    forall i | 1 <= i < k + 1 && i <= |t|
      ensures !StartsWith(t[i..], name)
    {
      assert t[i..] == t[1..][i - 1..];
    }
  }

  lemma FirstAndRest(t: string)
    requires t != ""
    ensures t == [t[0]] + t[1..]
  {
  }

  lemma ContainedLater(t: string, name: string)
    requires Contains(t, name) && !StartsWith(t, name) && name != ""
    ensures t != "" && Contains(t[1..], name)
  {
    var i :| 0 <= i <= |t| && StartsWith(t[i..], name);
    assert t[0..] == t;
    assert t[1..][i - 1..] == t[i..];
  }

  lemma Prepend(c: char, x: string, a: string, z: string)
    ensures [c] + (x + a + z) == ([c] + x) + a + z
  {
  }

  /** The first match follows `x`. */
  ghost predicate BeginsAt(t: string, name: string, x: string) {
    NotBefore(t, name, |x|) && exists z :: t == x + name + z
  }

  /** A token that merely contains the name: its rewriting begins with a token that runs into the record's name. */
  lemma BadToken(t: string, rest: string, name: string, data: string, member: string)
    returns (x: string, more: seq<string>)
    requires IsWord(name) && IsWord(data) && IsWord(t) && Contains(t, name)
    ensures Tokens(Replace(t, name, data + "." + member) + rest) == [x + data] + more
    ensures BeginsAt(t, name, x)
  {
    var z;
    var to := data + "." + member;
    x, z := FirstMatch(t, name, to);
    var a, b := x + data, "." + member + Replace(z, name, to) + rest;
    assert Replace(t, name, to) + rest == a + b;
    assert forall i :: 0 <= i < |x| ==> x[i] == t[i];
    TokensSplit(a, b);
    TokensOfToken(a);
    more := Tokens(b);
  }

  lemma GoodToken(t: string, rest: string, name: string, to: string)
    requires IsWord(name) && to != "" && WordChar(to[0])
    requires IsWord(t) || (|t| == 1 && !WordChar(t[0]))
    requires IsWord(t) && rest != "" ==> !WordChar(rest[0])
    requires Contains(t, name) ==> t == name
    ensures Tokens(Replace(t, name, to) + Replace(rest, name, to))
         == (if t == name then Tokens(to) else [t]) + Tokens(Replace(rest, name, to))
  {
    FirstCharOfReplace(rest, name, to);
    if t == name {
      ReplaceWhole(name, to);
    } else {
      ReplaceAbsent(t, name, to);
      TokensOfToken(t);
    }
    TokensSplit(Replace(t, name, to), Replace(rest, name, to));
  }

  /** Up to the first token that merely contains the name, rewriting renames token by token. */
  lemma {:induction false} FirstBadToken(s: string, name: string, data: string, member: string)
    returns (before: seq<string>, t: string, after: seq<string>, x: string, more: seq<string>)
    requires IsWord(name) && IsWord(data) && !OnlyWhole(Tokens(s), name)
    ensures var to := data + "." + member;
            && Tokens(s) == before + ([t] + after) && Contains(t, name) && t != name && IsWord(t)
            && Tokens(Replace(s, name, to)) == Renamed(before, name, Tokens(to)) + ([x + data] + more)
            && BeginsAt(t, name, x) && OnlyWhole(before, name)
    decreases |s|
  {
    var to := data + "." + member;
    var h := FirstToken(s);
    var rest := s[|h|..];
    FirstTokenIsMaximal(s);
    ReplaceSplits(h, rest, name, to);
    OnlyWholeSplits(h, Tokens(rest), name);
    if Contains(h, name) && h != name {
      before, t, after := [], h, Tokens(rest);
      ContainingIsWord(h, name);
      x, more := BadToken(h, Replace(rest, name, to), name, data, member);
    } else {
      before, t, after, x, more := FirstBadToken(rest, name, data, member);
      GoodToken(h, rest, name, to);
      var head := if h == name then Tokens(to) else [h];
      ConcatAssoc(head, Renamed(before, name, Tokens(to)), [x + data] + more);
      ConcatAssoc([h], before, [t] + after);
      assert ([h] + before)[1..] == before;
      OnlyWholeSplits(h, before, name);
      before := [h] + before;
    }
  }

  lemma ContainingIsWord(t: string, name: string)
    requires IsWord(name) && Contains(t, name) && (IsWord(t) || (|t| == 1 && !WordChar(t[0])))
    ensures IsWord(t)
  {
    var i :| 0 <= i <= |t| && StartsWith(t[i..], name);
    assert t[i] == t[i..][..|name|][0] == name[0];
  }

  // ---------------------------------------------------------------- rewriting keeps the meaning, exactly when

  lemma MemberTokens(data: string, member: string)
    requires IsWord(data) && IsWord(member)
    ensures Tokens(data + "." + member) == [data, ".", member]
  {
    var dot := ".";
    assert !WordChar(dot[0]);
    TokensSplit(data, dot);
    TokensSplit(data + dot, member);
    TokensOfToken(data);
    TokensOfToken(dot);
    TokensOfToken(member);
    assert [data] + [dot] + [member] == [data, dot, member];
  }

  lemma PrefixIsContained(name: string, z: string)
    ensures Contains(name + z, name)
  {
    assert (name + z)[0..] == name + z && (name + z)[..|name|] == name;
    assert StartsWith((name + z)[0..], name);
  }

  /** A token that merely contains the name reads as itself; what it became begins with another token, or a value. */
  lemma BadTokenDiverges<V>(t: string, after: seq<string>, x: string, more: seq<string>,
                            name: string, data: string, rec: map<string, V>, value: V)
    requires Apart(name, data, rec) && IsWord(t) && Contains(t, name) && t != name
    requires BeginsAt(t, name, x)
    ensures Diverge([t] + after, [x + data] + more, name, data, rec, value)
  {
    ApartMeans(name, data, rec);
    assert !WordChar("."[0]);
    var z :| t == x + name + z;
    assert (x + name + z)[|x|..] == name + z;
    PrefixIsContained(name, z);
    assert (x + data)[|x|..] == data;
    assert EndsWith(x + data, data);
    assert t != data;
  }

  lemma NameDiverges<V>(after: seq<string>, more: seq<string>, name: string, data: string, member: string,
                        rec: map<string, V>, value: V)
    requires Apart(name, data, rec) && member !in rec
    ensures Diverge([name] + after, [data, ".", member] + more, name, data, rec, value)
  {
    ApartMeans(name, data, rec);
  }

  lemma {:induction false} FirstMention(tokens: seq<string>, name: string, to: seq<string>)
    returns (before: seq<string>, after: seq<string>)
    requires name in tokens
    ensures tokens == before + ([name] + after) && name !in before
    ensures Renamed(tokens, name, to) == Renamed(before, name, to) + (to + Renamed(after, name, to))
  {
    if tokens[0] == name {
      before, after := [], tokens[1..];
    } else {
      before, after := FirstMention(tokens[1..], name, to);
      ConcatAssoc([tokens[0]], Renamed(before, name, to), to + Renamed(after, name, to));
      ConcatAssoc([tokens[0]], before, [name] + after);
      assert ([tokens[0]] + before)[1..] == before;
      before := [tokens[0]] + before;
    }
  }

  lemma BadFilterDiffers<V>(s: string, name: string, data: string, member: string, rec: map<string, V>, value: V)
    requires Apart(name, data, rec) && IsWord(member) && (member in rec ==> rec[member] == value)
    requires !OnlyWhole(Tokens(s), name)
    ensures Read(Tokens(Replace(s, name, data + "." + member)), map[], data, rec)
         != Read(Tokens(s), map[name := value], data, rec)
  {
    var before, t, after, x, more := FirstBadToken(s, name, data, member);
    MemberTokens(data, member);
    BadTokenDiverges(t, after, x, more, name, data, rec, value);
    TheyDiffer(before, [t] + after, [x + data] + more, name, data, member, rec, value);
  }

  /** The rewritten filter reads, on the record, as the original does with the field's name bound to the member's
      value, if and only if the name occurs only as a whole token and, where it occurs, the member is there. Then, and
      only then, every evaluation gives both the same result. */
  lemma FilterReads<V>(s: string, name: string, data: string, member: string, rec: map<string, V>, value: V)
    requires Apart(name, data, rec) && IsWord(member) && |name| < |data| + 1 + |member|
    requires member in rec ==> rec[member] == value
    ensures Read(Tokens(Replace(s, name, data + "." + member)), map[], data, rec)
         == Read(Tokens(s), map[name := value], data, rec)
       <==> OnlyWhole(Tokens(s), name) && (name in Tokens(s) ==> member in rec)
  {
    var to := data + "." + member;
    MemberTokens(data, member);
    ReplaceRenames(s, name, to);
    if !OnlyWhole(Tokens(s), name) {
      BadFilterDiffers(s, name, data, member, rec, value);
    } else if name in Tokens(s) && member !in rec {
      var renamed := Renamed(Tokens(s), name, Tokens(to));
      assert Tokens(s) + [] == Tokens(s) && renamed + [] == renamed;
      MissingMember(name, data, member, rec, value, Tokens(s), [], []);
    } else {
      RenamedReads(Tokens(s), name, data, member, rec, value);
    }
  }

  /** The two lists read differently, whether or not the member is there. */
  lemma TheyDiffer<V>(before: seq<string>, first: seq<string>, second: seq<string>, name: string, data: string,
                      member: string, rec: map<string, V>, value: V)
    requires Apart(name, data, rec) && (member in rec ==> rec[member] == value)
    requires Diverge(first, second, name, data, rec, value) && NoSpill(before, first, data, rec)
    ensures Read(before + first, map[name := value], data, rec)
         != Read(Renamed(before, name, [data, ".", member]) + second, map[], data, rec)
  {
    if name in before && member !in rec {
      MissingMember(name, data, member, rec, value, before, first, second);
    } else {
      ReadsDiffer(before, first, second, name, data, member, rec, value);
    }
  }

  /** The name occurs as a whole token first, but there is no such member. */
  lemma MissingMember<V>(name: string, data: string, member: string, rec: map<string, V>, value: V,
                         before: seq<string>, first: seq<string>, second: seq<string>)
    requires Apart(name, data, rec) && member !in rec && name in before
    ensures Read(before + first, map[name := value], data, rec)
         != Read(Renamed(before, name, [data, ".", member]) + second, map[], data, rec)
  {
    var to := [data, ".", member];
    var head, after := FirstMention(before, name, to);
    var more := Renamed(after, name, to);
    ApartMeans(name, data, rec);
    NameDiverges(after + first, more + second, name, data, member, rec, value);
    ConcatAssoc(head, [name] + after, first);
    ConcatAssoc([name], after, first);
    ConcatAssoc(Renamed(head, name, to), to + more, second);
    ConcatAssoc(to, more, second);
    ReadsDiffer(head, [name] + (after + first), to + (more + second), name, data, member, rec, value);
  }

  // ---------------------------------------------------------------- one word for another

  /** Rewriting a word to a word works on each token by itself. */
  function Each(tokens: seq<string>, name: string, to: string): seq<string>
    requires name != ""
  {
    if tokens == [] then [] else [Replace(tokens[0], name, to)] + Each(tokens[1..], name, to)
  }

  lemma {:induction false} ReplaceInWord(t: string, name: string, to: string)
    requires IsWord(name) && IsWord(to) && forall i :: 0 <= i < |t| ==> WordChar(t[i])
    ensures forall i :: 0 <= i < |Replace(t, name, to)| ==> WordChar(Replace(t, name, to)[i])
  {
    if t != "" {
      if StartsWith(t, name) {
        ReplaceInWord(t[|name|..], name, to);
      } else {
        ReplaceInWord(t[1..], name, to);
      }
    }
  }

  lemma TokenOfWord(t: string, rest: string, name: string, to: string)
    requires IsWord(name) && IsWord(to)
    requires IsWord(t) || (|t| == 1 && !WordChar(t[0]))
    requires IsWord(t) && rest != "" ==> !WordChar(rest[0])
    ensures Tokens(Replace(t, name, to) + Replace(rest, name, to))
         == [Replace(t, name, to)] + Tokens(Replace(rest, name, to))
  {
    var r := Replace(t, name, to);
    FirstCharOfReplace(rest, name, to);
    FirstCharOfReplace(t, name, to);
    if IsWord(t) {
      ReplaceInWord(t, name, to);
    } else {
      OtherTokenStays(t, name, to);
    }
    TokensOfToken(r);
    TokensSplit(r, Replace(rest, name, to));
  }

  lemma OtherTokenStays(t: string, name: string, to: string)
    requires IsWord(name) && |t| == 1 && !WordChar(t[0])
    ensures Replace(t, name, to) == t && !Contains(t, name)
  {
    forall i | 0 <= i <= |t|
      ensures !StartsWith(t[i..], name)
    {
      assert i == 0 ==> t[i..][0] == t[0];
    }
    ReplaceAbsent(t, name, to);
  }

  lemma {:induction false} ReplaceByWords(s: string, name: string, to: string)
    requires IsWord(name) && IsWord(to)
    ensures Tokens(Replace(s, name, to)) == Each(Tokens(s), name, to)
    decreases |s|
  {
    if s != "" {
      var t := FirstToken(s);
      var rest := s[|t|..];
      FirstTokenIsMaximal(s);
      ReplaceSplits(t, rest, name, to);
      ReplaceByWords(rest, name, to);
      TokenOfWord(t, rest, name, to);
      assert Tokens(s)[1..] == Tokens(rest);
    }
  }

  lemma {:induction false} ReplaceChanges(t: string, name: string, to: string)
    requires name != "" && Contains(t, name) && |name| == |to| && name != to
    ensures Replace(t, name, to) != t
  {
    var x, z := FirstMatch(t, name, to);
    assert (x + name + z)[|x|..|x| + |name|] == name;
    assert (x + to + Replace(z, name, to))[|x|..|x| + |to|] == to;
  }

  lemma {:induction false} EachIsRenamed(tokens: seq<string>, name: string, to: string)
    requires IsWord(name) && |name| == |to| && name != to
    ensures Each(tokens, name, to) == Renamed(tokens, name, [to]) <==> OnlyWhole(tokens, name)
  {
    if tokens != [] {
      var t, rest := tokens[0], tokens[1..];
      EachIsRenamed(rest, name, to);
      OnlyWholeSplits(t, rest, name);
      assert tokens == [t] + rest;
      if t == name {
        ReplaceWhole(name, to);
      } else if Contains(t, name) {
        ReplaceChanges(t, name, to);
      } else {
        ReplaceAbsent(t, name, to);
      }
      var a, b := Replace(t, name, to), if t == name then to else t;
      HeadsAndTails(a, b, Each(rest, name, to), Renamed(rest, name, [to]));
    }
  }

  lemma HeadsAndTails<T>(x: T, y: T, a: seq<T>, b: seq<T>)
    ensures [x] + a == [y] + b <==> x == y && a == b
  {
    assert ([x] + a)[0] == x && ([y] + b)[0] == y && ([x] + a)[1..] == a && ([y] + b)[1..] == b;
  }

  /** Validation rewrites a filter from the user's spelling of a name to the table's, of the same length: exactly the
      tokens that are the name change, if and only if the spellings differ and no other token contains the user's; if
      they are the same, nothing changes. */
  lemma RespellingRenames(s: string, name: string, to: string)
    requires IsWord(name) && IsWord(to) && |name| == |to|
    ensures name != to ==>
              (Tokens(Replace(s, name, to)) == Renamed(Tokens(s), name, [to]) <==> OnlyWhole(Tokens(s), name))
    ensures name == to ==> Replace(s, name, to) == s
  {
    if name == to {
      ReplaceSame(s, name);
    } else {
      ReplaceByWords(s, name, to);
      EachIsRenamed(Tokens(s), name, to);
    }
  }

  /** No token of the mention of a member. */
  predicate Unlike<V>(name: string, data: string, rec: map<string, V>) {
    name != data && name != "." && name !in rec
  }

  /** Reading with the table's name bound, after respelling, is reading the user's own filter with both spellings
      bound. */
  lemma {:induction false} RespelledReads<V>(tokens: seq<string>, name: string, to: string, data: string,
                                             rec: map<string, V>, value: V)
    requires Unlike(name, data, rec) && Unlike(to, data, rec)
    ensures Read(Renamed(tokens, name, [to]), map[to := value], data, rec)
         == Read(tokens, map[name := value, to := value], data, rec)
    decreases |tokens|
  {
    if tokens != [] {
      RenamedHead(tokens, name, [to]);
      RespelledReads(tokens[1..], name, to, data, rec, value);
      var all := Renamed(tokens, name, [to]);
      assert all[1..] == Renamed(tokens[1..], name, [to]);
      if tokens[0] != name && tokens[0] != to {
        RespelledMember(tokens, name, to, data, rec);
        if IsMember(tokens, data, rec) {
          RespelledReads(tokens[3..], name, to, data, rec, value);
        }
      }
    }
  }

  lemma RespelledMember<V>(tokens: seq<string>, name: string, to: string, data: string, rec: map<string, V>)
    requires Unlike(name, data, rec) && Unlike(to, data, rec) && tokens != [] && tokens[0] != name
    ensures var all := Renamed(tokens, name, [to]);
            && (IsMember(all, data, rec) <==> IsMember(tokens, data, rec))
            && (IsMember(tokens, data, rec) ==> all[2] == tokens[2] && all[3..] == Renamed(tokens[3..], name, [to]))
  {
    RenamedHead(tokens, name, [to]);
    if |tokens| >= 2 {
      RenamedHead(tokens[1..], name, [to]);
      if |tokens| >= 3 {
        RenamedHead(tokens[2..], name, [to]);
        assert tokens[2..][1..] == tokens[3..];
      }
    }
  }

  // ---------------------------------------------------------------- one word for another, and then for a member

  lemma {:induction false} SameLength(s: string, name: string, to: string)
    requires name != "" && |name| == |to|
    ensures |Replace(s, name, to)| == |s|
  {
    if s != "" {
      if StartsWith(s, name) {
        SameLength(s[|name|..], name, to);
      } else {
        SameLength(s[1..], name, to);
      }
    }
  }

  lemma ContainsAt(x: string, name: string, z: string)
    ensures StartsWith((x + name + z)[|x|..], name) && Contains(x + name + z, name)
  {
    var s := x + name + z;
    assert s[|x|..] == name + z && (name + z)[..|name|] == name;
  }

  /** A token that holds one spelling holds the other after respelling. */
  lemma RespelledHolds(t: string, name: string, to: string)
    requires name != "" && |name| == |to| && Contains(t, name)
    ensures Contains(Replace(t, name, to), to) && (t != name ==> Replace(t, name, to) != to)
  {
    var x, z := FirstMatch(t, name, to);
    ContainsAt(x, to, Replace(z, name, to));
    SameLength(t, name, to);
    assert |t| == |x| + |name| + |z|;
  }

  /** If some token merely contains the user's spelling, after respelling one merely contains the table's. */
  lemma {:induction false} StaysBad(tokens: seq<string>, name: string, to: string)
    requires name != "" && |name| == |to| && !OnlyWhole(tokens, name)
    ensures !OnlyWhole(Each(tokens, name, to), to)
  {
    if tokens != [] {
      var t, rest := tokens[0], tokens[1..];
      assert tokens == [t] + rest;
      OnlyWholeSplits(t, rest, name);
      OnlyWholeSplits(Replace(t, name, to), Each(rest, name, to), to);
      if Contains(t, name) && t != name {
        RespelledHolds(t, name, to);
      } else {
        StaysBad(rest, name, to);
      }
    }
  }

  /** Up to the first token that merely contains the table's spelling, respelling renamed whole tokens. */
  lemma {:induction false} UpToBadToken(tokens: seq<string>, name: string, to: string,
                                        before: seq<string>, t: string, after: seq<string>)
    returns (was: string, rest: seq<string>)
    requires IsWord(name) && |name| == |to| && name != to && OnlyWhole(before, to)
    requires Each(tokens, name, to) == before + ([t] + after) && t != to
    ensures Renamed(tokens, name, [to]) == before + ([was] + rest)
    ensures t == Replace(was, name, to) && was != name && was in tokens
  {
    var h, others := tokens[0], tokens[1..];
    var all := before + ([t] + after);
    ReplaceWhole(name, to);
    RenamedHead(tokens, name, [to]);
    if before == [] {
      was, rest := h, Renamed(others, name, [to]);
      assert all[0] == t;
      assert [] + ([was] + rest) == [was] + rest;
    } else {
      var b := before[1..];
      assert all[0] == before[0] && all[1..] == b + ([t] + after);
      assert before == [before[0]] + b;
      OnlyWholeSplits(before[0], b, to);
      SameHead(h, name, to, before[0]);
      was, rest := UpToBadToken(others, name, to, b, t, after);
      ConcatAssoc([before[0]], b, [was] + rest);
    }
  }

  lemma SameHead(h: string, name: string, to: string, b: string)
    requires name != "" && |name| == |to| && b == Replace(h, name, to) && (Contains(b, to) ==> b == to)
    ensures b == if h == name then to else h
  {
    if Contains(h, name) {
      RespelledHolds(h, name, to);
      SameLength(h, name, to);
      ContainsAt("", name, "");
    } else {
      ReplaceAbsent(h, name, to);
      ContainsAt("", name, "");
      assert "" + name + "" == name;
    }
  }

  /** The token that was there is not the one that its rewriting begins with. */
  lemma OldTokenIsOther(was: string, name: string, to: string, data: string, x: string)
    requires name != "" && |name| == |to| && data != "" && to[0] != data[0] && !Contains(data, name)
    requires BeginsAt(Replace(was, name, to), to, x)
    ensures was != x + data
  {
    var t := Replace(was, name, to);
    var z :| t == x + to + z;
    assert t[|x|] == to[0];
    assert data[0..] == data && (x + data)[|x|..] == data;
    if Contains(was, name) {
      var x1, z1 := FirstMatch(was, name, to);
      ContainsAt(x1, to, Replace(z1, name, to));
      ContainsAt(x1, name, z1);
      assert |x| <= |x1|;
      assert |x| < |x1| ==> t[|x|] == x1[|x|] == was[|x|];
      assert |x| == |x1| ==> StartsWith(was[|x|..], name);
      assert !StartsWith(data[0..], name);
    } else {
      ReplaceAbsent(was, name, to);
    }
  }

  lemma OldTokenIsNoData(was: string, name: string, to: string, data: string)
    requires name != "" && !Contains(data, name) && !Contains(data, to) && Contains(Replace(was, name, to), to)
    ensures was != data
  {
    if !Contains(was, name) {
      ReplaceAbsent(was, name, to);
    }
  }

  lemma OldTokenIsLonger(was: string, name: string, to: string)
    requires name != "" && |name| == |to| && Contains(Replace(was, name, to), to) && Replace(was, name, to) != to
    ensures was != to && was != name
  {
    var t := Replace(was, name, to);
    var i :| 0 <= i <= |t| && StartsWith(t[i..], to);
    SameLength(was, name, to);
    ReplaceWhole(name, to);
    assert t[0..] == t && t[..|t|] == t;
    assert |t| == |to| ==> i == 0;
  }

  predicate Spelling(name: string, to: string, data: string) {
    && IsWord(name) && |name| == |to| && name != to && data != "" && !Contains(data, name)
    && to != "" && to[0] != data[0]
  }

  lemma OldTokenDiverges<V>(was: string, after: seq<string>, x: string, more: seq<string>,
                            name: string, to: string, data: string, rec: map<string, V>, value: V)
    requires Apart(to, data, rec) && Spelling(name, to, data) && was != "."
    requires var t := Replace(was, name, to); Contains(t, to) && t != to && BeginsAt(t, to, x)
    ensures Diverge([was] + after, [x + data] + more, to, data, rec, value)
  {
    ApartMeans(to, data, rec);
    OldTokenIsOther(was, name, to, data, x);
    OldTokenIsNoData(was, name, to, data);
    OldTokenIsLonger(was, name, to);
    EndsWithData(x, data);
    assert !WordChar("."[0]);
  }

  lemma EndsWithData(x: string, data: string)
    ensures EndsWith(x + data, data)
  {
    assert (x + data)[|x|..] == data;
  }

  lemma {:induction false} RenamedConcat(a: seq<string>, b: seq<string>, name: string, to: seq<string>)
    ensures Renamed(a + b, name, to) == Renamed(a, name, to) + Renamed(b, name, to)
  {
    if a == [] {
      assert a + b == b;
    } else {
      assert (a + b)[1..] == a[1..] + b;
      RenamedConcat(a[1..], b, name, to);
      RenamedHead(a + b, name, to);
      RenamedHead(a, name, to);
      ConcatAssoc(if a[0] == name then to else [a[0]], Renamed(a[1..], name, to), Renamed(b, name, to));
    }
  }

  lemma {:induction false} RenamedAbsent(tokens: seq<string>, name: string, to: seq<string>)
    requires name !in tokens
    ensures Renamed(tokens, name, to) == tokens
  {
    if tokens != [] {
      RenamedAbsent(tokens[1..], name, to);
      RenamedHead(tokens, name, to);
    }
  }

  /** Where a member's name was respelled, the user's text read the member. */
  lemma BrokenMember<V>(before: seq<string>, was: string, after: seq<string>, broken: string, more: seq<string>,
                        name: string, data: string, member: string, rec: map<string, V>, value: V)
    requires Apart(name, data, rec) && (member in rec ==> rec[member] == value)
    requires was in rec && broken !in rec
    ensures Read((before + [data, "."]) + ([was] + after), map[name := value], data, rec)
         != Read(Renamed(before + [data, "."], name, [data, ".", member]) + ([broken] + more), map[], data, rec)
  {
    var mention := [data, "."];
    var first, second := mention + ([was] + after), mention + ([broken] + more);
    ApartMeans(name, data, rec);
    RenamedConcat(before, mention, name, [data, ".", member]);
    RenamedAbsent(mention, name, [data, ".", member]);
    ConcatAssoc(before, mention, [was] + after);
    ConcatAssoc(Renamed(before, name, [data, ".", member]), mention, [broken] + more);
    assert first[2] == was && second[2] == broken;
    TheyDiffer(before, first, second, name, data, member, rec, value);
  }

  /** Wherever the token stands, the two lists read differently. */
  lemma OldTokenDiffers<V>(before: seq<string>, was: string, after: seq<string>, x: string, more: seq<string>,
                           name: string, to: string, data: string, member: string, rec: map<string, V>, value: V)
    requires Apart(to, data, rec) && Spelling(name, to, data) && was != "."
    requires member in rec ==> rec[member] == value
    requires var t := Replace(was, name, to); Contains(t, to) && t != to && BeginsAt(t, to, x)
    ensures Read(before + ([was] + after), map[to := value], data, rec)
         != Read(Renamed(before, to, [data, ".", member]) + ([x + data] + more), map[], data, rec)
  {
    OldTokenDiverges(was, after, x, more, name, to, data, rec, value);
    if NoSpill(before, [was] + after, data, rec) {
      TheyDiffer(before, [was] + after, [x + data] + more, to, data, member, rec, value);
    } else {
      var n := |before| - 2;
      EndsWithData(x, data);
      assert before == before[..n] + [data, "."];
      BrokenMember(before[..n], was, after, x + data, more, to, data, member, rec, value);
    }
  }

  lemma DotStays(name: string, to: string)
    requires IsWord(name) && IsWord(to)
    ensures !Contains(Replace(".", name, to), to)
  {
    assert !WordChar("."[0]);
    OtherTokenStays(".", name, to);
    OtherTokenStays(".", to, name);
  }

  /** If some token merely contains the user's spelling, respelling and rewriting change the meaning. */
  lemma RespelledDiffers<V>(s: string, name: string, to: string, data: string, member: string,
                            rec: map<string, V>, value: V)
    requires Apart(to, data, rec) && Spelling(name, to, data) && IsWord(member)
    requires member in rec ==> rec[member] == value
    requires Unlike(name, data, rec) && Unlike(to, data, rec) && !OnlyWhole(Tokens(s), name)
    ensures !OnlyWhole(Tokens(Replace(s, name, to)), to)
    ensures Read(Tokens(Replace(Replace(s, name, to), to, data + "." + member)), map[], data, rec)
         != Read(Tokens(s), map[name := value, to := value], data, rec)
  {
    ReplaceByWords(s, name, to);
    StaysBad(Tokens(s), name, to);
    var before, t, after, x, more := FirstBadToken(Replace(s, name, to), to, data, member);
    var was, rest := UpToBadToken(Tokens(s), name, to, before, t, after);
    DotStays(name, to);
    MemberTokens(data, member);
    OldTokenDiffers(before, was, rest, x, more, name, to, data, member, rec, value);
    RespelledReads(Tokens(s), name, to, data, rec, value);
  }
}
