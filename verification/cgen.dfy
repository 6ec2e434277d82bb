/** Code generation for the fields of the table (ebpf/cgen.go, ebpf/data.go): what the generated program declares is
    what it uses. */
module CGen {
  import opened Text
  import opened Fields
  import opened Filters
  import opened Names
  import opened Program
  import opened Expressions
  import opened Atoms
  import Layout
  import opened Relay

  // ---------------------------------------------------------------- facts about the table

  /** What the generator relies on, for one entry of the table. */
  predicate Generable(name: string, a: FieldAttrs) {
    && WellSourced(a)
    && (a.cField == COMM_FIELD <==> name == "Task")
    && IsWord(name)
    && |name| <= |a.cField| + 6
  }

  lemma SourceA(name: string)
    requires name in TcpSockFieldsA()
    ensures TcpSockFieldsA()[name].ds == "tcpi" && !TcpSockFieldsA()[name].ctype.Char?
  {
  }

  lemma MemberA(name: string)
    requires name in TcpSockFieldsA()
    ensures var c := TcpSockFieldsA()[name].cField;
            |c| >= 4 && !IsDigit(c[|c| - 1]) && (c[0] != 'c' || c[1] != 'u') && (c[0] != 's' || c[1] != 'k')
            && |name| <= |c| + 6
  {
  }

  lemma SourceB(name: string)
    requires name in TcpSockFieldsB()
    ensures TcpSockFieldsB()[name].ds == "tcpi" && !TcpSockFieldsB()[name].ctype.Char?
  {
  }

  lemma MemberB(name: string)
    requires name in TcpSockFieldsB()
    ensures var c := TcpSockFieldsB()[name].cField;
            |c| >= 4 && !IsDigit(c[|c| - 1]) && (c[0] != 'c' || c[1] != 'u') && (c[0] != 's' || c[1] != 'k')
            && |name| <= |c| + 6
  {
  }

  predicate TableMath(math: string) {
    math == "" || math == ">> 3"
  }

  lemma MathA(name: string)
    requires name in TcpSockFieldsA()
    ensures TableMath(TcpSockFieldsA()[name].math)
  {
  }

  lemma MathB(name: string)
    requires name in TcpSockFieldsB()
    ensures TableMath(TcpSockFieldsB()[name].math)
  {
  }

  lemma MathOther(name: string)
    requires name in OtherFields()
    ensures TableMath(OtherFields()[name].math)
  {
  }

  lemma WrittenShift()
    ensures Written(">> 3") == [">", ">", "3"]
  {
    var more, three := ">", "3";
    assert more[0] == '>' && !WordChar(more[0]) && !IsBlank(more) && IsWord(three);
    assert ">> 3" == more + (more + (" " + three));
    WrittenSplit(more, more + (" " + three));
    WrittenSplit(more, " " + three);
    WrittenSplit(" ", three);
    WrittenBlank();
    WrittenToken(more);
    WrittenToken(three);
    assert [more] + ([more] + ([] + [three])) == [more, more, three];
  }

  lemma ShiftIsPlain(w: seq<string>)
    requires |w| == 3 && w[0] == ">" && w[1] == ">" && w[2] == "3"
    ensures EndsChain(w) && Closed(w, 0) && Bases(w) == []
  {
    assert ">"[0] == '>' && "3"[0] == '3' && |">"| == 1 && |"3"| == 1;
    assert !IsPointer(">") && !IsPointer("3");
    assert w[1..][1..] == w[2..] && w[2..][1..] == [];
    assert Closed(w[2..], 0) && Bases(w[2..]) == [];
    assert Closed(w[1..], 0) && Bases(w[1..]) == [];
  }

  lemma TableMathFollows(math: string)
    requires TableMath(math)
    ensures FollowsPath(math) && Bases(Written(math)) == []
  {
    if math == "" {
      assert Written("") == [];
    } else {
      assert !WordChar(math[0]);
      WrittenShift();
      ShiftIsPlain(Written(math));
    }
  }

  lemma GenerableGroupA(name: string)
    requires name in TcpSockFieldsA()
    ensures Generable(name, TcpSockFieldsA()[name]) && !IsAddress6(TcpSockFieldsA()[name])
  {
    SourceA(name);
    MemberA(name);
    NotTaskA(name);
    NameA(name);
    CNameA(name);
    MathA(name);
    PlainMember(name, TcpSockFieldsA()[name]);
  }

  lemma GenerableGroupB(name: string)
    requires name in TcpSockFieldsB()
    ensures Generable(name, TcpSockFieldsB()[name]) && !IsAddress6(TcpSockFieldsB()[name])
  {
    SourceB(name);
    MemberB(name);
    NotTaskB(name);
    NameB(name);
    CNameB(name);
    MathB(name);
    PlainMember(name, TcpSockFieldsB()[name]);
  }

  lemma OrdinaryMember(c: string)
    requires |c| >= 4 && (c[0] != 'c' || c[1] != 'u') && (c[0] != 's' || c[1] != 'k')
    ensures c != COMM_FIELD && c != "skc_v6_daddr" && c != "skc_v6_rcv_saddr"
  {
  }

  lemma TcpiSource()
    ensures IsPath(Written("tcpi")) && !StartsWith("tcpi", "bpf_") && "tcpi" != GET_COMM && "tcpi" != GET_PID
  {
    PointerIsPath("tcpi");
    assert "tcpi"[..4][0] == 't' && "bpf_"[0] == 'b' && GET_COMM[0] == 'b' && GET_PID[0] == 'b';
  }

  /** A member of tcp_sock whose name resembles neither the task's nor an address's. */
  lemma PlainMember(name: string, a: FieldAttrs)
    requires a.ds == "tcpi" && !a.ctype.Char? && IsWord(name) && name != "Task" && |name| <= |a.cField| + 6
    requires CName(a.cField) && TableMath(a.math)
    requires var c := a.cField;
             |c| >= 4 && !IsDigit(c[|c| - 1]) && (c[0] != 'c' || c[1] != 'u') && (c[0] != 's' || c[1] != 'k')
    ensures Generable(name, a) && !IsAddress6(a)
  {
    OrdinaryMember(a.cField);
    TcpiSource();
    TableMathFollows(a.math);
  }

  predicate KnownSource(ds: string) {
    ds == "tcpi->rcv_rtt_est" || ds == "tcpi->rx_opt" || ds == "tcpi->rack" || ds == "tcpi->rcvq_space"
    || ds == "icsk" || ds == "args" || ds == "sk->__sk_common" || ds == GET_COMM || ds == GET_PID
  }

  lemma SourceOther(name: string)
    requires name in OtherFields()
    ensures KnownSource(OtherFields()[name].ds)
    ensures OtherFields()[name].ds == GET_COMM <==> name == "Task"
  {
  }

  lemma TypesOfOthers(name: string)
    requires name in OtherFields()
    ensures var a := OtherFields()[name];
            (a.ctype.Char? <==> name == "Task") && (a.ds == GET_PID ==> a.ctype.U32?)
  {
  }

  lemma MemberOther(name: string)
    requires name in OtherFields()
    ensures var c := OtherFields()[name].cField;
            |c| >= 3 && !IsDigit(c[|c| - 1]) && |name| <= |c| + 6 && (c == COMM_FIELD <==> name == "Task")
  {
  }

  lemma NotAddress6(name: string)
    requires name in OtherFields()
    ensures !IsAddress6(OtherFields()[name])
  {
  }

  /** A field from a known source whose member's name goes with its type. */
  lemma SourcedMember(name: string, a: FieldAttrs)
    requires KnownSource(a.ds) && IsWord(name) && |name| <= |a.cField| + 6 && CName(a.cField) && TableMath(a.math)
    requires (a.ds == GET_COMM <==> name == "Task") && (a.cField == COMM_FIELD <==> name == "Task")
    requires (a.ctype.Char? <==> name == "Task") && (a.ds == GET_PID ==> a.ctype.U32?) && !IsAddress6(a)
    ensures Generable(name, a)
  {
    TableMathFollows(a.math);
    KnownSources(a.ds);
  }

  lemma GenerableOthers(name: string)
    requires name in OtherFields()
    ensures Generable(name, OtherFields()[name]) && !IsAddress6(OtherFields()[name])
  {
    SourceOther(name);
    MemberOther(name);
    NotAddress6(name);
    TypesOfOthers(name);
    NameOther(name);
    CNameOther(name);
    MathOther(name);
    SourcedMember(name, OtherFields()[name]);
  }

  lemma CommonSource()
    ensures IsPath(Written("sk->__sk_common"))
  {
    assert "sk->__sk_common" == "sk" + "->" + "__sk_common";
    ArrowIsPath("sk", "__sk_common");
  }

  lemma RcvRttSource()
    ensures IsPath(Written("tcpi->rcv_rtt_est"))
  {
    assert "tcpi->rcv_rtt_est" == "tcpi" + "->" + "rcv_rtt_est";
    ArrowIsPath("tcpi", "rcv_rtt_est");
  }

  lemma RxOptSource()
    ensures IsPath(Written("tcpi->rx_opt"))
  {
    assert "tcpi->rx_opt" == "tcpi" + "->" + "rx_opt";
    ArrowIsPath("tcpi", "rx_opt");
  }

  lemma RackSource()
    ensures IsPath(Written("tcpi->rack"))
  {
    assert "tcpi->rack" == "tcpi" + "->" + "rack";
    ArrowIsPath("tcpi", "rack");
  }

  lemma RcvSpaceSource()
    ensures IsPath(Written("tcpi->rcvq_space"))
  {
    assert "tcpi->rcvq_space" == "tcpi" + "->" + "rcvq_space";
    ArrowIsPath("tcpi", "rcvq_space");
  }

  lemma HelperSources(ds: string)
    requires KnownSource(ds)
    ensures StartsWith(ds, "bpf_") <==> ds == GET_COMM || ds == GET_PID
  {
    assert ds[0] == 'b' <==> ds == GET_COMM || ds == GET_PID;
    assert "bpf_"[0] == 'b' && (StartsWith(ds, "bpf_") ==> ds[..4][0] == ds[0]);
    assert GET_COMM[..4] == "bpf_" && GET_PID[..4] == "bpf_";
  }

  /** Every source is one of the two helpers, or a path behind a pointer. */
  lemma KnownSources(ds: string)
    requires KnownSource(ds)
    ensures StartsWith(ds, "bpf_") <==> ds == GET_COMM || ds == GET_PID
    ensures ds != GET_COMM && ds != GET_PID ==> IsPath(Written(ds))
  {
    HelperSources(ds);
    PointerIsPath("icsk");
    PointerIsPath("args");
    CommonSource();
    RcvRttSource();
    RxOptSource();
    RackSource();
    RcvSpaceSource();
  }

  lemma AddressSource(name: string)
    requires name in OtherFields() && (name == "SAddr" || name == "DAddr")
    ensures OtherFields()[name].ds == "sk->__sk_common" && !OtherFields()[name].ctype.Char?
  {
  }

  lemma AddressMembers(c: string)
    requires c == "skc_v6_rcv_saddr" || c == "skc_v6_daddr"
    ensures IsWord(c) && GoodCField(c) && c != COMM_FIELD && |c| >= 12
  {
    assert c[0] == 's' && COMM_FIELD[0] == 'c' && c[|c| - 1] == 'r';
    AddressesHaveCNames();
  }

  /** A field read from memory may become a raw address. */
  lemma AsAddress6(name: string, a: FieldAttrs, c: string)
    requires Generable(name, a) && !a.ctype.Char? && !IsBPF(a) && name != "Task" && |name| <= 18
    requires c == "skc_v6_rcv_saddr" || c == "skc_v6_daddr"
    ensures Generable(name, a.(ctype := U128, cField := c))
  {
    AddressMembers(c);
  }

  lemma Address6IsGenerable(name: string)
    requires name in OtherFields() && (name == "SAddr" || name == "DAddr")
    ensures Generable(name, Attrs6(name, OtherFields()[name]))
  {
    var a := OtherFields()[name];
    GenerableOthers(name);
    AddressSource(name);
    assert name[0] != "Task"[0] && |name| == 5;
    assert "sk->__sk_common"[0] == 's' && GET_COMM[0] == 'b' && GET_PID[0] == 'b';
    AsAddress6(name, a, if name == "SAddr" then "skc_v6_rcv_saddr" else "skc_v6_daddr");
  }

  lemma TableIsGenerable(v4: bool, name: string)
    requires name in TableOf(v4)
    ensures Generable(name, TableOf(v4)[name])
  {
    if name in OtherFields() {
      GenerableOthers(name);
      if !v4 && (name == "SAddr" || name == "DAddr") {
        Address6IsGenerable(name);
      }
    } else if name in TcpSockFieldsB() {
      GenerableGroupB(name);
      AddressesAreOther(name);
    } else {
      GenerableGroupA(name);
      AddressesAreOther(name);
    }
  }

  lemma AddressesAreOther(name: string)
    requires name !in OtherFields()
    ensures name != "SAddr" && name != "DAddr"
  {
  }

  // ---------------------------------------------------------------- requested fields of the table

  function ReqFields(v4: bool, fields: seq<ConfigField>): (req: seq<ReqField>)
    requires Selectable(TableOf(v4), fields)
    ensures |req| == |fields|
  {
    seq(|fields|, i requires 0 <= i < |fields| => ReqFieldOf(TableOf(v4), v4, fields[i], i))
  }

  predicate OneTask(fields: seq<ConfigField>) {
    forall i, j :: 0 <= i < j < |fields| ==> !(fields[i].name == "Task" && fields[j].name == "Task")
  }

  /** For any list of fields of the table, the generated struct is free of clashes exactly when the list asks for the
      task's name at most once; every field is well sourced. */
  lemma RequestedFieldsAreGood(v4: bool, fields: seq<ConfigField>)
    requires Selectable(TableOf(v4), fields)
    ensures AllWellSourced(ReqFields(v4, fields))
    ensures DistinctMembers(ReqFields(v4, fields)) <==> OneTask(fields)
  {
    var req := ReqFields(v4, fields);
    forall i | 0 <= i < |fields|
      ensures WellSourced(req[i].attrs)
      ensures req[i].attrs.cField == COMM_FIELD <==> fields[i].name == "Task"
    {
      TableIsGenerable(v4, fields[i].name);
    }
    MembersAreDistinct(req);
  }

  /** The filter of a field of the table is rewritten to the field's struct member, token for token, if and only if no
      other identifier or number in it contains the field's name. */
  lemma FilterIsRewritten(v4: bool, f: ConfigField, index: nat)
    requires f.name in TableOf(v4) && f.name != ""
    ensures Tokens(ReqFieldOf(TableOf(v4), v4, f, index).filter)
         == Renamed(Tokens(f.filter), f.name, Tokens(FilterTarget(v4, TableOf(v4)[f.name].cField, index)))
       <==> OnlyWhole(Tokens(f.filter), f.name)
  {
    var c := TableOf(v4)[f.name].cField;
    var target := FilterTarget(v4, c, index);
    TableIsGenerable(v4, f.name);
    FormatUintIsDigits(index);
    assert |Prefix(v4)| == 6 && |target| == 6 + |c| + |FormatUint(index)|;
    assert target[0] == Prefix(v4)[0] == 'd';
    assert target[|target| - 1] == FormatUint(index)[|FormatUint(index)| - 1];
    ReplaceRenames(f.filter, f.name, target);
  }

  // ---------------------------------------------------------------- declared pointers

  /** The part of TracepointTemplate that Init computes. */
  class TracepointTemplate {
    const fields: seq<ReqField>  // append(t.Fields4, t.Fields6...)
    var tcpInfo: bool
    var icsk: bool

    constructor (fields4: seq<ReqField>, fields6: seq<ReqField>)
      ensures fields == fields4 + fields6 && !tcpInfo && !icsk
    {
      fields := fields4 + fields6;
      tcpInfo, icsk := false, false;
    }

    method Init()
      modifies this
      ensures tcpInfo <==> old(tcpInfo) || exists i :: 0 <= i < |fields| && Contains(fields[i].attrs.ds, "tcpi")
      ensures icsk <==> old(icsk) || exists i :: 0 <= i < |fields| && Contains(fields[i].attrs.ds, "icsk")
    {
      for i := 0 to |fields|
        invariant tcpInfo == (old(tcpInfo) || Mentions(fields[..i], "tcpi"))
        invariant icsk == (old(icsk) || Mentions(fields[..i], "icsk"))
      {
        MentionsSnoc(fields, i, "tcpi");
        MentionsSnoc(fields, i, "icsk");
        if Contains(fields[i].attrs.ds, "tcpi") {
          tcpInfo := true;
        }
        if Contains(fields[i].attrs.ds, "icsk") {
          icsk := true;
        }
      }
      TakeAll(fields);
    }
  }

  predicate Mentions(fields: seq<ReqField>, pointer: string) {
    exists i :: 0 <= i < |fields| && Contains(fields[i].attrs.ds, pointer)
  }

  lemma MentionsSnoc(fields: seq<ReqField>, i: nat, pointer: string)
    requires i < |fields|
    ensures Mentions(fields[..i + 1], pointer)
       <==> Mentions(fields[..i], pointer) || Contains(fields[i].attrs.ds, pointer)
  {
  }

  /** The pointers in scope of the generated function: its argument, the socket, and those that Init asked for. */
  predicate Declared(fields: seq<ReqField>, pointer: string) {
    pointer == "args" || pointer == "sk" || ((pointer == "tcpi" || pointer == "icsk") && Mentions(fields, pointer))
  }

  lemma {:induction false} TokenIsContained(s: string, t: string)
    requires t in Tokens(s)
    ensures Contains(s, t)
    decreases |s|
  {
    var first := FirstToken(s);
    if t == first {
      assert s[0..] == s && StartsWith(s[0..], t);
    } else {
      var rest := s[|first|..];
      TokenIsContained(rest, t);
      var i :| 0 <= i <= |rest| && StartsWith(rest[i..], t);
      assert s[|first| + i..] == rest[i..];
    }
  }

  lemma {:induction false} WrittenIsToken(tokens: seq<string>, t: string)
    requires t in NoBlanks(tokens)
    ensures t in tokens
  {
    if tokens[0] != t {
      WrittenIsToken(tokens[1..], t);
    }
  }

  lemma SourceIsDeclared(f: ReqField, all: seq<ReqField>)
    requires f in all && WellSourced(f.attrs) && !IsBPF(f.attrs)
    ensures Declared(all, PathTokens(f.attrs)[0])
  {
    var pointer := Written(f.attrs.ds)[0];
    WrittenIsToken(Tokens(f.attrs.ds), pointer);
    TokenIsContained(f.attrs.ds, pointer);
    var j :| 0 <= j < |all| && all[j] == f;
    assert Contains(all[j].attrs.ds, pointer);
  }

  /** Every pointer that a text goes through is in scope. */
  ghost predicate InScope(text: string, all: seq<ReqField>) {
    forall p :: p in Bases(Written(text)) ==> Declared(all, p)
  }

  lemma InitialiserInScope(f: ReqField, all: seq<ReqField>)
    requires f in all && WellSourced(f.attrs) && !IsBPF(f.attrs)
    ensures InScope(InitText(f), all) <==> InScope(f.umath, all)
  {
    WrittenPath(f.attrs);
    SourceIsDeclared(f, all);
    WrittenInitialiser(Path(f.attrs), f.attrs.math, f.umath);
    BindInitialiser(PathTokens(f.attrs), Written(f.attrs.math), Written(f.umath), _ => 0);
    var bases := Bases(Written(f.umath));
    assert [] + bases == bases;
    assert forall p :: p in [PathTokens(f.attrs)[0]] + bases <==> p == PathTokens(f.attrs)[0] || p in bases;
  }

  lemma RawInScope(f: ReqField, all: seq<ReqField>)
    requires f in all && WellSourced(f.attrs) && !IsBPF(f.attrs)
    ensures InScope(f.attrs.ds + "." + f.attrs.cField + ".in6_u.u6_addr32", all)
  {
    var path := Written(f.attrs.ds);
    RawSource(f.attrs);
    PathGrows(path, f.attrs.cField);
    PathGrows(path + [".", f.attrs.cField], "in6_u");
    PathGrows(path + [".", f.attrs.cField] + [".", "in6_u"], "u6_addr32");
    var whole := path + [".", f.attrs.cField] + [".", "in6_u"] + [".", "u6_addr32"];
    BindPath(whole, [], _ => 0);
    assert whole + [] == whole && Bases([]) == [];
    SourceIsDeclared(f, all);
  }

  /** The text that an initialising statement reads. */
  function ReadText(s: Stmt): string {
    match s
    case Init(_, _, text) => text
    case ProbeRead(_, source) => source
    case _ => ""
  }

  /** For any list of fields of the table: every pointer that an emitted initialiser goes through is declared, if and
      only if those are that the user's math goes through, where it is used at all. */
  lemma PointersAreDeclared(v4: bool, fields: seq<ConfigField>, i: nat, all: seq<ReqField>)
    requires Selectable(TableOf(v4), fields) && i < |fields|
    requires ReqFields(v4, fields)[i] in all && !IsBPF(ReqFields(v4, fields)[i].attrs)
    ensures var f := ReqFields(v4, fields)[i];
            && |InitStmt(v4, f, i)| == 1
            && (InScope(ReadText(InitStmt(v4, f, i)[0]), all) <==> (UsesMath(v4, f.attrs) ==> InScope(f.umath, all)))
  {
    var f := ReqFields(v4, fields)[i];
    TableIsGenerable(v4, fields[i].name);
    if UsesMath(v4, f.attrs) {
      InitialiserInScope(f, all);
    } else {
      RawInScope(f, all);
    }
  }

  // ---------------------------------------------------------------- math that is ignored

  /** What is emitted to fill a field's member. */
  function Emitted(v4: bool, f: ReqField, i: nat): seq<Stmt> {
    InitStmt(v4, f, i) + HelperStmt(f, i)
  }

  predicate IgnoresMath(v4: bool, name: string) {
    name == "PID" || name == "Task" || (!v4 && (name == "SAddr" || name == "DAddr"))
  }

  lemma TextsDiffer(a: FieldAttrs, m1: string, m2: string)
    requires m1 != m2
    ensures InitText(ReqField(a, m1, "")) != InitText(ReqField(a, m2, ""))
  {
    var head := "(" + Path(a) + a.math + ") ";
    assert (head + m1)[|head|..] == m1 && (head + m2)[|head|..] == m2;
  }

  lemma HelperOther(name: string)
    requires name in OtherFields()
    ensures OtherFields()[name].ds == GET_PID <==> name == "PID"
  {
  }

  lemma UsedOther(name: string)
    requires name in OtherFields()
    ensures IsBPF(OtherFields()[name]) <==> name == "PID" || name == "Task"
    ensures !IsAddress6(OtherFields()[name])
  {
    GenerableOthers(name);
    HelperOther(name);
    SourceOther(name);
  }

  lemma UsedOther6(name: string)
    requires name in OtherFields()
    ensures var a := Attrs6(name, OtherFields()[name]);
            && (IsBPF(a) <==> name == "PID" || name == "Task")
            && (IsAddress6(a) <==> name == "SAddr" || name == "DAddr")
  {
    UsedOther(name);
  }

  lemma NotOther(name: string)
    requires name !in OtherFields()
    ensures name != "SAddr" && name != "DAddr" && name != "PID" && name != "Task"
  {
  }

  lemma UsedTcpSock(name: string)
    requires name in TcpSockFieldsA() || name in TcpSockFieldsB()
    ensures name in TcpSockFieldsB() ==> UsesMath(false, TcpSockFieldsB()[name])
    ensures name !in TcpSockFieldsB() ==> UsesMath(false, TcpSockFieldsA()[name])
  {
    assert "tcpi"[0] == 't' && "bpf_"[0] == 'b';
    if name in TcpSockFieldsB() {
      SourceB(name);
      GenerableGroupB(name);
    } else {
      SourceA(name);
      GenerableGroupA(name);
    }
  }

  lemma UsedExactly(v4: bool, name: string)
    requires name in TableOf(v4)
    ensures UsesMath(v4, TableOf(v4)[name]) <==> !IgnoresMath(v4, name)
  {
    if name in OtherFields() {
      UsedOther(name);
      UsedOther6(name);
    } else {
      NotOther(name);
      UsedTcpSock(name);
    }
  }

  lemma MathInText(v4: bool, a: FieldAttrs)
    ensures (forall m1, m2, filter, i ::
               Emitted(v4, ReqField(a, m1, filter), i) == Emitted(v4, ReqField(a, m2, filter), i))
       <==> !UsesMath(v4, a)
  {
    if UsesMath(v4, a) {
      TextsDiffer(a, "", "/ 2");
      assert Emitted(v4, ReqField(a, "", ""), 0)[0] != Emitted(v4, ReqField(a, "/ 2", ""), 0)[0];
    }
  }

  /** What is emitted for a field is the same whatever math the user configures, exactly for the process id, the task's
      name and the two addresses under IPv6: their math is silently ignored. */
  lemma MathIsIgnored(v4: bool, name: string)
    requires name in TableOf(v4)
    ensures (forall m1, m2, filter, i ::
               Emitted(v4, ReqField(TableOf(v4)[name], m1, filter), i)
               == Emitted(v4, ReqField(TableOf(v4)[name], m2, filter), i))
       <==> IgnoresMath(v4, name)
  {
    UsedExactly(v4, name);
    MathInText(v4, TableOf(v4)[name]);
  }

  lemma NoMath(arith: Arith, memory: Memory, x: int)
    ensures MathCloses("") && AfterMath(arith, memory, x, "") == arith([Value(x)])
  {
    assert Written("") == [];
  }

  lemma ThreeBehind(arith: Arith, memory: Memory, x: int)
    ensures MathCloses("3") && AfterMath(arith, memory, x, "3") == arith([Value(x), Token("3")])
  {
    var three := "3";
    assert IsWord(three) && three[0] == '3' && !IsPointer(three);
    NotABracket(three);
    WrittenToken(three);
    var tokens := [three];
    assert tokens[1..] == [] && Closed([], 0);
    assert Bind(tokens, memory) == [Token(three)] + Bind(tokens[1..], memory);
    var atoms: seq<Atom<int>> := [Token(three)];
    assert Bind(tokens, memory) == atoms && atoms[1..] == [];
    assert Fold(arith, Reading([], [Value(x)]), atoms) == Fold(arith, Reading([], [Value(x)] + [atoms[0]]), atoms[1..]);
    assert [Value(x)] + [atoms[0]] == [Value(x), Token(three)];
  }

  /** An arithmetic that counts operands and operators tells math from no math. */
  lemma CountingMath(f: ReqField, g: ReqField, e: Event)
    requires f.attrs == g.attrs && f.umath == "" && g.umath == "3" && forall atoms :: e.arith(atoms) == |atoms|
    ensures FieldValue(f, e) == 1 && FieldValue(g, e) == 2
  {
    var x := AfterMath(e.arith, e.kernel, e.kernel(PathTokens(f.attrs)), f.attrs.math);
    NoMath(e.arith, e.kernel, x);
    ThreeBehind(e.arith, e.kernel, x);
  }

  lemma SmallModulo(n: nat, p: nat)
    requires n < 0x100 <= p
    ensures n % p == n
  {
  }

  lemma FirstByte(n: nat, size: nat)
    requires n < 0x100 && size > 0
    ensures NumberBytes(n, size)[0] == n
  {
    Pow256Positive(size - 1);
    SmallModulo(n, Layout.Pow256(size));
  }

  lemma WantedIsValue(v4: bool, f: ReqField, e: Event)
    requires WellSourced(f.attrs) && UsesMath(v4, f.attrs)
    ensures Wanted(v4, f, e) == NumberBytes(FieldValue(f, e), Layout.Size(f.attrs)) && Layout.Size(f.attrs) > 0
  {
  }

  lemma CountingChanges(v4: bool, a: FieldAttrs, e: Event)
    requires WellSourced(a) && UsesMath(v4, a) && forall atoms :: e.arith(atoms) == |atoms|
    ensures Wanted(v4, ReqField(a, "", ""), e) != Wanted(v4, ReqField(a, "3", ""), e)
  {
    var f, g := ReqField(a, "", ""), ReqField(a, "3", "");
    WantedIsValue(v4, f, e);
    WantedIsValue(v4, g, e);
    CountingMath(f, g, e);
    FirstByte(1, Layout.Size(a));
    FirstByte(2, Layout.Size(a));
  }

  /** Where it is not ignored, math changes the value that is wanted, and so stored: for any event, with an arithmetic
      that counts operands and operators. */
  lemma MathMatters(v4: bool, name: string, e: Event)
    requires name in TableOf(v4) && !IgnoresMath(v4, name) && forall atoms :: e.arith(atoms) == |atoms|
    ensures MathCloses("") && MathCloses("3")
    ensures Wanted(v4, ReqField(TableOf(v4)[name], "", ""), e) != Wanted(v4, ReqField(TableOf(v4)[name], "3", ""), e)
  {
    UsedExactly(v4, name);
    TableIsGenerable(v4, name);
    NoMath(e.arith, e.kernel, 0);
    ThreeBehind(e.arith, e.kernel, 0);
    CountingChanges(v4, TableOf(v4)[name], e);
  }
}
