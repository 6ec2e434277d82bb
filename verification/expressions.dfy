/** What the text of an initialiser is worth (ebpf/template.go: initializer).  C evaluates the innermost brackets first;
    a chain of members behind one of the program's pointers is read from kernel memory. */
module Expressions {
  import opened Text
  import opened Filters
  import opened Atoms

  /** The value of operands and operators without brackets, and of a chain of members. */
  type Arith = seq<Atom<int>> -> int
  type Memory = seq<string> -> int

  // ---------------------------------------------------------------- tokens

  predicate IsBlank(t: string) {
    t == " " || t == "\t" || t == "\n"
  }

  function NoBlanks(tokens: seq<string>): seq<string> {
    if tokens == [] then []
    else (if IsBlank(tokens[0]) then [] else [tokens[0]]) + NoBlanks(tokens[1..])
  }

  /** The tokens of a text, blanks left out. */
  function Written(text: string): seq<string> {
    NoBlanks(Tokens(text))
  }

  lemma {:induction false} NoBlanksConcat(a: seq<string>, b: seq<string>)
    ensures NoBlanks(a + b) == NoBlanks(a) + NoBlanks(b)
  {
    if a == [] {
      assert a + b == b;
    } else {
      assert (a + b)[1..] == a[1..] + b;
      NoBlanksConcat(a[1..], b);
      ConcatAssoc(if IsBlank(a[0]) then [] else [a[0]], NoBlanks(a[1..]), NoBlanks(b));
    }
  }

  lemma WrittenSplit(a: string, b: string)
    requires a == "" || b == "" || !WordChar(a[|a| - 1]) || !WordChar(b[0])
    ensures Written(a + b) == Written(a) + Written(b)
  {
    TokensSplit(a, b);
    NoBlanksConcat(Tokens(a), Tokens(b));
  }

  lemma WordIsNoBlank(t: string)
    requires IsWord(t)
    ensures !IsBlank(t)
  {
    assert !WordChar(" "[0]) && !WordChar("\t"[0]) && !WordChar("\n"[0]);
  }

  lemma WrittenToken(t: string)
    requires IsWord(t) || (|t| == 1 && !WordChar(t[0]) && !IsBlank(t))
    ensures Written(t) == [t]
  {
    TokensOfToken(t);
    if IsWord(t) {
      WordIsNoBlank(t);
    }
    OneToken(t);
  }

  lemma OneToken(t: string)
    requires !IsBlank(t)
    ensures NoBlanks([t]) == [t]
  {
    var one := [t];
    assert one[0] == t && one[1..] == [];
    assert NoBlanks(one) == [t] + NoBlanks(one[1..]);
  }

  lemma WrittenBlank()
    ensures Written(" ") == []
  {
    TokensOfToken(" ");
    assert [" "][1..] == [];
  }

  // ---------------------------------------------------------------- chains of members

  /** The pointers of the generated function. */
  predicate IsPointer(t: string) {
    t == "tcpi" || t == "icsk" || t == "sk" || t == "args"
  }

  /** How many tokens the members behind a pointer take: `->member` and `.member` in turn. */
  function ChainLength(tokens: seq<string>): (n: nat)
    ensures n <= |tokens|
  {
    if |tokens| >= 3 && tokens[0] == "-" && tokens[1] == ">" && IsWord(tokens[2]) then 3 + ChainLength(tokens[3..])
    else if |tokens| >= 2 && tokens[0] == "." && IsWord(tokens[1]) then 2 + ChainLength(tokens[2..])
    else 0
  }

  predicate IsChain(tokens: seq<string>) {
    ChainLength(tokens) == |tokens|
  }

  predicate IsPath(tokens: seq<string>) {
    tokens != [] && IsPointer(tokens[0]) && IsChain(tokens[1..])
  }

  /** No chain goes on here. */
  predicate EndsChain(tokens: seq<string>) {
    tokens == [] || (tokens[0] != "-" && tokens[0] != ".")
  }

  lemma {:induction false} ChainThenMore(a: seq<string>, b: seq<string>)
    requires IsChain(a)
    ensures ChainLength(a + b) == |a| + ChainLength(b)
    decreases |a|
  {
    if a == [] {
      assert a + b == b;
    } else if a[0] == "-" {
      assert (a + b)[3..] == a[3..] + b;
      ChainThenMore(a[3..], b);
    } else {
      assert (a + b)[2..] == a[2..] + b;
      ChainThenMore(a[2..], b);
    }
  }

  /** A chain does not run across a closing bracket. */
  lemma {:induction false} ChainBeforeBracket(a: seq<string>, b: seq<string>)
    requires b != [] && b[0] == ")"
    ensures ChainLength(a + b) == ChainLength(a)
    decreases |a|
  {
    var s := a + b;
    assert !IsWord(")") by { assert !WordChar(")"[0]); }
    if |a| >= 3 && a[0] == "-" && a[1] == ">" && IsWord(a[2]) {
      assert s[3..] == a[3..] + b;
      ChainBeforeBracket(a[3..], b);
    } else if |a| >= 2 && a[0] == "." && IsWord(a[1]) {
      assert s[2..] == a[2..] + b;
      ChainBeforeBracket(a[2..], b);
    } else {
      assert |a| < 3 ==> s[|a|] == ")";
    }
  }

  // ---------------------------------------------------------------- what an expression reads

  /** Chains of members replaced by what memory holds there. */
  function Bind(tokens: seq<string>, memory: Memory): seq<Atom<int>>
    decreases |tokens|
  {
    if tokens == [] then []
    else if IsPointer(tokens[0]) then
      var n := 1 + ChainLength(tokens[1..]);
      [Value(memory(tokens[..n]))] + Bind(tokens[n..], memory)
    else [Token(tokens[0])] + Bind(tokens[1..], memory)
  }

  /** The pointers that an expression goes through. */
  function Bases(tokens: seq<string>): seq<string>
    decreases |tokens|
  {
    if tokens == [] then []
    else if IsPointer(tokens[0]) then [tokens[0]] + Bases(tokens[1 + ChainLength(tokens[1..])..])
    else Bases(tokens[1..])
  }

  /** How many tokens the first atom takes. */
  function StepLength(tokens: seq<string>): (n: nat)
    requires tokens != []
    ensures 0 < n <= |tokens|
  {
    if IsPointer(tokens[0]) then 1 + ChainLength(tokens[1..]) else 1
  }

  lemma BindStep(tokens: seq<string>, memory: Memory)
    requires tokens != []
    ensures var n := StepLength(tokens);
            && Bind(tokens, memory)
                 == [if IsPointer(tokens[0]) then Value(memory(tokens[..n])) else Token(tokens[0])]
                    + Bind(tokens[n..], memory)
            && Bases(tokens) == (if IsPointer(tokens[0]) then [tokens[0]] else []) + Bases(tokens[n..])
  {
  }

  lemma StepBeforeBracket(a: seq<string>, b: seq<string>)
    requires a != [] && b != [] && b[0] == ")"
    ensures var n := StepLength(a);
            StepLength(a + b) == n && (a + b)[n..] == a[n..] + b && (a + b)[..n] == a[..n] && (a + b)[0] == a[0]
  {
    assert (a + b)[1..] == a[1..] + b;
    ChainBeforeBracket(a[1..], b);
  }

  lemma {:induction false} BindBeforeBracket(a: seq<string>, b: seq<string>, memory: Memory)
    requires b != [] && b[0] == ")"
    ensures Bind(a + b, memory) == Bind(a, memory) + Bind(b, memory)
    ensures Bases(a + b) == Bases(a) + Bases(b)
    decreases |a|
  {
    if a == [] {
      assert a + b == b;
    } else {
      var n := StepLength(a);
      StepBeforeBracket(a, b);
      BindStep(a, memory);
      BindStep(a + b, memory);
      BindBeforeBracket(a[n..], b, memory);
      var first := if IsPointer(a[0]) then Value(memory(a[..n])) else Token(a[0]);
      ConcatAssoc([first], Bind(a[n..], memory), Bind(b, memory));
      ConcatAssoc(if IsPointer(a[0]) then [a[0]] else [], Bases(a[n..]), Bases(b));
    }
  }

  lemma BindBracket(bracket: string, rest: seq<string>, memory: Memory)
    requires bracket == "(" || bracket == ")"
    ensures Bind([bracket] + rest, memory) == [Token(bracket)] + Bind(rest, memory)
    ensures Bases([bracket] + rest) == Bases(rest)
  {
    assert ([bracket] + rest)[1..] == rest;
    assert |bracket| == 1;
  }

  /** A path at the start of an expression is one value. */
  lemma BindPath(path: seq<string>, rest: seq<string>, memory: Memory)
    requires IsPath(path) && EndsChain(rest)
    ensures Bind(path + rest, memory) == [Value(memory(path))] + Bind(rest, memory)
    ensures Bases(path + rest) == [path[0]] + Bases(rest)
  {
    var s := path + rest;
    assert s[1..] == path[1..] + rest;
    ChainThenMore(path[1..], rest);
    assert s[..|path|] == path && s[|path|..] == rest;
  }

  // ---------------------------------------------------------------- brackets

  /** What has been read: the unfinished groups around, outermost first, and the innermost one. */
  datatype Reading = Reading(outer: seq<seq<Atom<int>>>, current: seq<Atom<int>>)

  /** A closing bracket ends the innermost group, which then counts as one value. */
  function Fold(arith: Arith, r: Reading, atoms: seq<Atom<int>>): Option<Reading>
    decreases |atoms|
  {
    if atoms == [] then Some(r)
    else if atoms[0] == Token("(") then Fold(arith, Reading(r.outer + [r.current], []), atoms[1..])
    else if atoms[0] == Token(")") then
      if r.outer == [] then None
      else
        var last := |r.outer| - 1;
        Fold(arith, Reading(r.outer[..last], r.outer[last] + [Value(arith(r.current))]), atoms[1..])
    else Fold(arith, Reading(r.outer, r.current + [atoms[0]]), atoms[1..])
  }

  /** The value of an expression that begins with the atoms `first`; none if its brackets do not match. */
  function Evaluated(arith: Arith, first: seq<Atom<int>>, atoms: seq<Atom<int>>): Option<int> {
    match Fold(arith, Reading([], first), atoms)
    case None => None
    case Some(r) => if r.outer == [] then Some(arith(r.current)) else None
  }

  /** What a text is worth. */
  function Worth(arith: Arith, memory: Memory, text: string): Option<int> {
    Evaluated(arith, [], Bind(Written(text), memory))
  }

  /** What x is worth with some math written behind it. */
  function AfterMath(arith: Arith, memory: Memory, x: int, math: string): int {
    Evaluated(arith, [Value(x)], Bind(Written(math), memory)).GetOr(0)
  }

  /** Brackets match, `depth` of them being open already. */
  predicate Closed(tokens: seq<string>, depth: nat) {
    if tokens == [] then depth == 0
    else if tokens[0] == "(" then Closed(tokens[1..], depth + 1)
    else if tokens[0] == ")" then depth > 0 && Closed(tokens[1..], depth - 1)
    else Closed(tokens[1..], depth)
  }

  predicate MathCloses(math: string) {
    Closed(Written(math), 0)
  }

  lemma {:induction false} FoldConcat(arith: Arith, r: Reading, a: seq<Atom<int>>, b: seq<Atom<int>>)
    ensures Fold(arith, r, a + b)
         == match Fold(arith, r, a) case None => None case Some(q) => Fold(arith, q, b)
    decreases |a|
  {
    if a == [] {
      assert a + b == b;
    } else {
      assert (a + b)[1..] == a[1..] + b;
      if a[0] == Token("(") {
        FoldConcat(arith, Reading(r.outer + [r.current], []), a[1..], b);
      } else if a[0] == Token(")") {
        if r.outer != [] {
          var last := |r.outer| - 1;
          FoldConcat(arith, Reading(r.outer[..last], r.outer[last] + [Value(arith(r.current))]), a[1..], b);
        }
      } else {
        FoldConcat(arith, Reading(r.outer, r.current + [a[0]]), a[1..], b);
      }
    }
  }

  /** Groups further out do not matter to what can be read without them. */
  lemma {:induction false} FoldWithin(arith: Arith, around: seq<seq<Atom<int>>>, r: Reading, atoms: seq<Atom<int>>)
    requires Fold(arith, r, atoms).Some?
    ensures var q := Fold(arith, r, atoms).value;
            Fold(arith, Reading(around + r.outer, r.current), atoms) == Some(Reading(around + q.outer, q.current))
    decreases |atoms|
  {
    if atoms != [] {
      if atoms[0] == Token("(") {
        FoldWithin(arith, around, Reading(r.outer + [r.current], []), atoms[1..]);
        ConcatAssoc(around, r.outer, [r.current]);
      } else if atoms[0] == Token(")") {
        var last := |r.outer| - 1;
        FoldWithin(arith, around, Reading(r.outer[..last], r.outer[last] + [Value(arith(r.current))]), atoms[1..]);
        assert (around + r.outer)[..|around + r.outer| - 1] == around + r.outer[..last];
      } else {
        FoldWithin(arith, around, Reading(r.outer, r.current + [atoms[0]]), atoms[1..]);
      }
    }
  }

  predicate IsBracket(t: string) {
    t == "(" || t == ")"
  }

  lemma {:induction false} SkipPlain(tokens: seq<string>, k: nat, depth: nat)
    requires k <= |tokens| && forall i :: 0 <= i < k ==> !IsBracket(tokens[i])
    ensures Closed(tokens, depth) <==> Closed(tokens[k..], depth)
  {
    if k == 0 {
      assert tokens[0..] == tokens;
    } else {
      SkipPlain(tokens[1..], k - 1, depth);
      assert tokens[1..][k - 1..] == tokens[k..];
    }
  }

  lemma NotABracket(t: string)
    requires IsWord(t)
    ensures !IsBracket(t)
  {
    assert !WordChar("("[0]) && !WordChar(")"[0]);
  }

  lemma {:induction false} ChainIsPlain(tokens: seq<string>, i: nat)
    requires i < ChainLength(tokens)
    ensures !IsBracket(tokens[i])
    decreases |tokens|
  {
    if |tokens| >= 3 && tokens[0] == "-" && tokens[1] == ">" && IsWord(tokens[2]) {
      NotABracket(tokens[2]);
      if i >= 3 {
        ChainIsPlain(tokens[3..], i - 3);
      }
    } else {
      NotABracket(tokens[1]);
      if i >= 2 {
        ChainIsPlain(tokens[2..], i - 2);
      }
    }
  }

  lemma SkipChain(tokens: seq<string>, depth: nat)
    ensures Closed(tokens, depth) <==> Closed(tokens[ChainLength(tokens)..], depth)
  {
    forall i | 0 <= i < ChainLength(tokens)
      ensures !IsBracket(tokens[i])
    {
      ChainIsPlain(tokens, i);
    }
    SkipPlain(tokens, ChainLength(tokens), depth);
  }

  /** Reading ends outside all groups exactly if the brackets match. */
  lemma {:induction false} FoldCloses(arith: Arith, memory: Memory, r: Reading, tokens: seq<string>)
    ensures var q := Fold(arith, r, Bind(tokens, memory));
            q.Some? && q.value.outer == [] <==> Closed(tokens, |r.outer|)
    decreases |tokens|
  {
    if tokens != [] {
      var rest := tokens[1..];
      var atoms := Bind(tokens, memory);
      if IsPointer(tokens[0]) {
        var n := 1 + ChainLength(rest);
        assert atoms[1..] == Bind(tokens[n..], memory);
        FoldCloses(arith, memory, Reading(r.outer, r.current + [atoms[0]]), tokens[n..]);
        SkipChain(rest, |r.outer|);
        assert rest[n - 1..] == tokens[n..];
      } else {
        assert atoms[1..] == Bind(rest, memory);
        if tokens[0] == "(" {
          FoldCloses(arith, memory, Reading(r.outer + [r.current], []), rest);
        } else if tokens[0] == ")" {
          if r.outer != [] {
            var last := |r.outer| - 1;
            FoldCloses(arith, memory, Reading(r.outer[..last], r.outer[last] + [Value(arith(r.current))]), rest);
          }
        } else {
          FoldCloses(arith, memory, Reading(r.outer, r.current + [atoms[0]]), rest);
        }
      }
    }
  }

  // ---------------------------------------------------------------- an initialiser

  /** Math that may be written right behind a path. */
  predicate FollowsPath(math: string) {
    && (math == "" || !WordChar(math[0]))
    && EndsChain(Written(math)) && MathCloses(math)
  }

  lemma WrittenInitialiser(path: string, math: string, umath: string)
    requires math == "" || !WordChar(math[0])
    ensures Written("(" + path + math + ") " + umath)
         == ["("] + (Written(path) + (Written(math) + ([")"] + Written(umath))))
  {
    var open, close, blank := "(", ")", " ";
    assert !WordChar(open[0]) && !WordChar(close[0]) && !WordChar(blank[0]);
    assert open[0] !in " \t\n" && close[0] !in " \t\n" && !IsBlank(open) && !IsBlank(close);
    assert "(" + path + math + ") " + umath == open + (path + (math + (close + (blank + umath))));
    WrittenSplit(open, path + (math + (close + (blank + umath))));
    PathThenRest(path, math, close + (blank + umath));
    WrittenSplit(math, close + (blank + umath));
    WrittenSplit(close, blank + umath);
    WrittenSplit(blank, umath);
    WrittenToken(open);
    WrittenToken(close);
    WrittenBlank();
    assert [] + Written(umath) == Written(umath);
  }

  lemma PathThenRest(path: string, math: string, rest: string)
    requires math == "" || !WordChar(math[0])
    requires rest != "" && !WordChar(rest[0])
    ensures Written(path + (math + rest)) == Written(path) + Written(math + rest)
  {
    assert (math + rest)[0] == if math == "" then rest[0] else math[0];
    WrittenSplit(path, math + rest);
  }

  /** The text of an initialiser is worth the user's math on the table's math on the kernel's value, if and only if the
      brackets in the user's math match; otherwise it is no expression. */
  lemma InitialiserIsWorth(arith: Arith, memory: Memory, path: string, math: string, umath: string)
    requires IsPath(Written(path)) && FollowsPath(math)
    ensures var text := "(" + path + math + ") " + umath;
            var x := AfterMath(arith, memory, memory(Written(path)), math);
            Worth(arith, memory, text)
              == if MathCloses(umath) then Some(AfterMath(arith, memory, x, umath)) else None
  {
    var p, m, u := Written(path), Written(math), Written(umath);
    var k := Value(memory(p));
    WrittenInitialiser(path, math, umath);
    BindInitialiser(p, m, u, memory);
    FoldCloses(arith, memory, Reading([], [k]), m);
    var c := Fold(arith, Reading([], [k]), Bind(m, memory)).value.current;
    InGroup(arith, k, Bind(m, memory), Bind(u, memory), c);
    FoldCloses(arith, memory, Reading([], [Value(arith(c))]), u);
  }

  /** A group in brackets is read as the value of what is in it. */
  lemma InGroup(arith: Arith, k: Atom<int>, m: seq<Atom<int>>, u: seq<Atom<int>>, c: seq<Atom<int>>)
    requires k.Value? && Fold(arith, Reading([], [k]), m) == Some(Reading([], c))
    ensures Fold(arith, Reading([], []), [Token("(")] + ([k] + (m + ([Token(")")] + u))))
         == Fold(arith, Reading([], [Value(arith(c))]), u)
  {
    var close := [Token(")")] + u;
    var inside := [k] + (m + close);
    assert ([Token("(")] + inside)[1..] == inside && inside[1..] == m + close && close[1..] == u;
    var outermost: seq<seq<Atom<int>>> := [[]];
    assert [] + outermost == outermost == outermost + [] && outermost[..0] == [];
    assert outermost[0] + [k] == [k] && outermost[0] + [Value(arith(c))] == [Value(arith(c))];
    FoldWithin(arith, outermost, Reading([], [k]), m);
    FoldConcat(arith, Reading(outermost, [k]), m, close);
  }

  lemma BindInitialiser(p: seq<string>, m: seq<string>, u: seq<string>, memory: Memory)
    requires IsPath(p) && EndsChain(m)
    ensures Bind(["("] + (p + (m + ([")"] + u))), memory)
         == [Token("(")] + ([Value(memory(p))] + (Bind(m, memory) + ([Token(")")] + Bind(u, memory))))
    ensures Bases(["("] + (p + (m + ([")"] + u)))) == [p[0]] + (Bases(m) + Bases(u))
  {
    var close := [")"] + u;
    assert EndsChain(m + close) by { assert (m + close)[0] == if m == [] then ")" else m[0]; }
    BindBracket("(", p + (m + close), memory);
    BindPath(p, m + close, memory);
    BindBeforeBracket(m, close, memory);
    BindBracket(")", u, memory);
  }

  // ---------------------------------------------------------------- the texts of paths

  lemma WrittenArrow(a: string, w: string)
    requires IsWord(w)
    ensures Written(a + "->" + w) == Written(a) + ["-", ">", w]
  {
    var minus, more := "-", ">";
    assert minus[0] == '-' && more[0] == '>' && !IsBlank(minus) && !IsBlank(more);
    assert a + "->" + w == a + (minus + (more + w));
    WrittenSplit(a, minus + (more + w));
    WrittenSplit(minus, more + w);
    WrittenSplit(more, w);
    WrittenToken(minus);
    WrittenToken(more);
    WrittenToken(w);
    assert [minus] + ([more] + [w]) == [minus, more, w];
  }

  lemma WrittenDot(a: string, w: string)
    requires IsWord(w)
    ensures Written(a + "." + w) == Written(a) + [".", w]
  {
    var dot := ".";
    assert dot[0] == '.' && !IsBlank(dot);
    assert a + "." + w == a + (dot + w);
    WrittenSplit(a, dot + w);
    WrittenSplit(dot, w);
    WrittenToken(dot);
    WrittenToken(w);
    assert [dot] + [w] == [dot, w];
  }

  lemma PathGrows(path: seq<string>, w: string)
    requires IsPath(path) && IsWord(w)
    ensures IsPath(path + ["-", ">", w]) && IsPath(path + [".", w])
  {
    var arrow, dot := ["-", ">", w], [".", w];
    assert arrow[3..] == [] && dot[2..] == [];
    ChainThenMore(path[1..], arrow);
    ChainThenMore(path[1..], dot);
    assert (path + arrow)[1..] == path[1..] + arrow && (path + dot)[1..] == path[1..] + dot;
  }

  lemma PointerIsPath(p: string)
    requires IsPointer(p)
    ensures IsWord(p) && Written(p) == [p] && IsPath([p])
  {
    WrittenToken(p);
    assert [p][1..] == [];
  }

  /** A member behind a pointer. */
  lemma ArrowIsPath(p: string, w: string)
    requires IsPointer(p) && IsWord(w)
    ensures Written(p + "->" + w) == [p, "-", ">", w] && IsPath(Written(p + "->" + w))
  {
    PointerIsPath(p);
    WrittenArrow(p, w);
    PathGrows([p], w);
    assert [p] + ["-", ">", w] == [p, "-", ">", w];
  }
}
