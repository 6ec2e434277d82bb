/** The kernel program generated for a tracepoint (ebpf/template.go, ebpf/fields.go, ebpf/cgen.go): the statements that
    the template yields for a list of fields, and what running them does to the record and the sampling hash. */
module Program {
  import opened Text
  import opened Fields
  import opened Filters
  import opened Atoms
  import opened Expressions
  import Layout
  import Counter

  /** One field of a template in the configuration. */
  datatype ConfigField = ConfigField(name: string, math: string, filter: string)

  function NamesOf(fields: seq<ConfigField>): (names: seq<string>)
    ensures |names| == |fields|
  {
    seq(|fields|, i requires 0 <= i < |fields| => fields[i].name)
  }

  /** A requested field: the table's attributes, the user's math, and the filter on the struct's member. */
  datatype ReqField = ReqField(attrs: FieldAttrs, umath: string, filter: string)

  // ---------------------------------------------------------------- requested fields

  /** The C variable that holds the record. */
  function Data(v4: bool): string {
    if v4 then "data4" else "data6"
  }

  function Prefix(v4: bool): string {
    Data(v4) + "."
  }

  lemma DataWithDot(v4: bool)
    ensures Prefix(v4) == if v4 then "data4." else "data6."
  {
  }

  /** The name that filters are rewritten to. */
  function FilterTarget(v4: bool, cField: string, index: nat): string {
    Prefix(v4) + (cField + FormatUint(index))
  }

  function ReqFieldOf(model: Model, v4: bool, f: ConfigField, index: nat): ReqField
    requires f.name in model && f.name != ""
  {
    var a := model[f.name];
    ReqField(a, f.math, Replace(f.filter, f.name, FilterTarget(v4, a.cField, index)))
  }

  predicate Selectable(model: Model, fields: seq<ConfigField>) {
    forall i :: 0 <= i < |fields| ==> fields[i].name in model && fields[i].name != ""
  }

  /** getReqFieldsV4 and getReqFieldsV6. */
  method GetReqFields(model: Model, v4: bool, fields: seq<ConfigField>) returns (req: seq<ReqField>)
    requires Selectable(model, fields)
    ensures |req| == |fields|
    ensures forall i :: 0 <= i < |fields| ==> req[i] == ReqFieldOf(model, v4, fields[i], i)
    ensures forall i :: 0 <= i < |fields| ==>
              var a, name := model[fields[i].name], fields[i].name;
              && req[i].attrs == a && req[i].umath == fields[i].math
              && req[i].filter
                 == Replace(fields[i].filter, name, (if v4 then "data4." else "data6.") + (a.cField + FormatUint(i)))
  {
    DataWithDot(v4);
    req := [];
    for i := 0 to |fields|
      invariant |req| == i
      invariant forall j :: 0 <= j < i ==> req[j] == ReqFieldOf(model, v4, fields[j], j)
    {
      req := req + [ReqFieldOf(model, v4, fields[i], i)];
    }
  }

  // ---------------------------------------------------------------- struct members

  const COMM_FIELD := "current_comm"

  /** A task's name is declared without an index, everything else with its own. */
  function MemberName(a: FieldAttrs, index: nat): string {
    if a.cField == COMM_FIELD then COMM_FIELD else a.cField + FormatUint(index)
  }

  predicate GoodCField(s: string) {
    s != "" && !IsDigit(s[|s| - 1])
  }

  /** An indexed name tells the C field and the index apart. */
  lemma IndexedNamesAreInjective(a: string, i: nat, b: string, j: nat)
    requires GoodCField(a) && GoodCField(b)
    requires a + FormatUint(i) == b + FormatUint(j)
    ensures a == b && i == j
  {
    FormatUintIsDigits(i);
    FormatUintIsDigits(j);
    var s := a + FormatUint(i);
    assert s[|a| - 1] == a[|a| - 1] && s[|b| - 1] == b[|b| - 1];
    assert forall k :: |a| <= k < |s| ==> IsDigit(s[k]);
    assert forall k :: |b| <= k < |s| ==> IsDigit(s[k]);
    assert a == s[..|a|] == b;
    assert FormatUint(i) == s[|a|..] == FormatUint(j);
  }

  lemma IndexedNameEndsInDigit(a: string, i: nat)
    ensures a + FormatUint(i) != COMM_FIELD
  {
    FormatUintIsDigits(i);
    var s := a + FormatUint(i);
    assert s[|s| - 1] == FormatUint(i)[|FormatUint(i)| - 1];
    assert COMM_FIELD[|COMM_FIELD| - 1] == 'm';
  }

  predicate GoodFields(fields: seq<ReqField>) {
    forall i :: 0 <= i < |fields| ==> GoodCField(fields[i].attrs.cField)
  }

  predicate DistinctMembers(fields: seq<ReqField>) {
    forall i, j :: 0 <= i < j < |fields| ==> MemberName(fields[i].attrs, i) != MemberName(fields[j].attrs, j)
  }

  predicate AtMostOneTask(fields: seq<ReqField>) {
    forall i, j :: 0 <= i < j < |fields| ==>
                     !(fields[i].attrs.cField == COMM_FIELD && fields[j].attrs.cField == COMM_FIELD)
  }

  /** The struct declares no member twice exactly when the list has at most one task name. */
  lemma MembersAreDistinct(fields: seq<ReqField>)
    requires GoodFields(fields)
    ensures DistinctMembers(fields) <==> AtMostOneTask(fields)
  {
    forall i, j | 0 <= i < j < |fields|
      ensures MemberName(fields[i].attrs, i) == MemberName(fields[j].attrs, j)
         <==> fields[i].attrs.cField == COMM_FIELD && fields[j].attrs.cField == COMM_FIELD
    {
      var a, b := fields[i].attrs, fields[j].attrs;
      IndexedNameEndsInDigit(a.cField, i);
      IndexedNameEndsInDigit(b.cField, j);
      if a.cField != COMM_FIELD && b.cField != COMM_FIELD && MemberName(a, i) == MemberName(b, j) {
        IndexedNamesAreInjective(a.cField, i, b.cField, j);
      }
    }
  }

  /** A rewritten filter names a declared member of the record exactly when its field is not the task's name. */
  lemma FilterTargetIsDeclared(v4: bool, fields: seq<ReqField>, i: nat)
    requires GoodFields(fields) && i < |fields|
    ensures (exists j :: 0 <= j < |fields| &&
                         FilterTarget(v4, fields[i].attrs.cField, i) == Prefix(v4) + MemberName(fields[j].attrs, j))
       <==> fields[i].attrs.cField != COMM_FIELD
  {
    var c := fields[i].attrs.cField;
    if c != COMM_FIELD {
      assert FilterTarget(v4, c, i) == Prefix(v4) + MemberName(fields[i].attrs, i);
    } else {
      forall j | 0 <= j < |fields|
        ensures FilterTarget(v4, c, i) != Prefix(v4) + MemberName(fields[j].attrs, j)
      {
        var d := fields[j].attrs.cField;
        IndexedNameEndsInDigit(c, i);
        assert FilterTarget(v4, c, i)[|Prefix(v4)|..] == c + FormatUint(i);
        assert (Prefix(v4) + MemberName(fields[j].attrs, j))[|Prefix(v4)|..] == MemberName(fields[j].attrs, j);
        if d != COMM_FIELD && c + FormatUint(i) == d + FormatUint(j) {
          IndexedNamesAreInjective(c, i, d, j);
        }
      }
    }
  }

  // ---------------------------------------------------------------- statements

  datatype Stmt =
    | Init(member: string, size: nat, text: string)   // data.member = text; truncated to the member's size
    | ProbeRead(member: string, source: string)       // bpf_probe_read of sixteen bytes
    | GetComm(member: string)
    | GetPid(member: string)
    | ReturnIf(v4: bool, cond: string)
    | Sample(limit: nat)
    | Submit

  function Path(a: FieldAttrs): string {
    a.ds + (if a.dsnp then "." else "->") + a.cField
  }

  /** The right-hand side that `initializer` writes. */
  function InitText(f: ReqField): string {
    "(" + Path(f.attrs) + f.attrs.math + ") " + f.umath
  }

  const GET_COMM := "bpf_get_current_comm"
  const GET_PID := "bpf_get_current_pid_tgid"

  predicate IsBPF(a: FieldAttrs) {
    StartsWith(a.ds, "bpf_")
  }

  predicate IsAddress6(a: FieldAttrs) {
    a.cField == "skc_v6_daddr" || a.cField == "skc_v6_rcv_saddr"
  }

  /** The first pass: everything read from the socket or the tracepoint's arguments. */
  function InitStmt(v4: bool, f: ReqField, i: nat): seq<Stmt> {
    if !v4 && IsAddress6(f.attrs) then
      [ProbeRead(f.attrs.cField + FormatUint(i), f.attrs.ds + "." + f.attrs.cField + ".in6_u.u6_addr32")]
    else if IsBPF(f.attrs) then []
    else [Init(f.attrs.cField + FormatUint(i), Layout.Size(f.attrs), InitText(f))]
  }

  /** The second pass: what helper calls provide. */
  function HelperStmt(f: ReqField, i: nat): seq<Stmt> {
    if f.attrs.ds == GET_COMM then [GetComm(f.attrs.cField)]
    else if f.attrs.ds == GET_PID then [GetPid(f.attrs.cField + FormatUint(i))]
    else []
  }

  function Inits(v4: bool, fields: seq<ReqField>, i: nat): seq<Stmt>
    requires i <= |fields|
    decreases |fields| - i
  {
    if i == |fields| then [] else InitStmt(v4, fields[i], i) + Inits(v4, fields, i + 1)
  }

  function Helpers(fields: seq<ReqField>, i: nat): seq<Stmt>
    requires i <= |fields|
    decreases |fields| - i
  {
    if i == |fields| then [] else HelperStmt(fields[i], i) + Helpers(fields, i + 1)
  }

  function FilterStmts(v4: bool, fields: seq<ReqField>): seq<Stmt> {
    if fields == [] then []
    else (if fields[0].filter != "" then [ReturnIf(v4, fields[0].filter)] else []) + FilterStmts(v4, fields[1..])
  }

  function Block(v4: bool, fields: seq<ReqField>, sample: nat): seq<Stmt> {
    Inits(v4, fields, 0) + (Helpers(fields, 0)
    + (FilterStmts(v4, fields) + ((if sample != 0 then [Sample(sample)] else []) + [Submit])))
  }

  /** A tracepoint's program: the gate on the socket's state, and one block for each family that was asked for. */
  datatype Tracepoint = Tracepoint(name: string, tcpState: string, fields4: seq<ReqField>, fields6: seq<ReqField>,
                                   sample: nat)

  // ---------------------------------------------------------------- running it

  type Record = map<string, seq<Byte>>
  type Samples = Counter.Samples

  /** What one event presents to the program: `kernel` and `raw` are what kernel memory holds at a path, as a number and
      as sixteen bytes; `arith` gives the value of operands and operators without brackets; `holds` that of a condition,
      in which members of the record have been replaced by their values. */
  datatype Event = Event(sock: nat, isTCP: bool, newState: string, family: nat,
                         kernel: Memory, arith: Arith, raw: seq<string> -> seq<Byte>, comm: seq<Byte>, pidTgid: nat,
                         holds: seq<Atom<seq<Byte>>> -> bool)

  function Truncated(n: int, size: nat): nat
    requires Layout.Pow256(size) > 0
  {
    n % Layout.Pow256(size)
  }

  lemma Pow256Positive(k: nat)
    ensures Layout.Pow256(k) > 0
  {
  }

  /** The bytes of a number in a member of `size` bytes. */
  function NumberBytes(n: int, size: nat): (b: seq<Byte>)
    ensures |b| == size
  {
    Pow256Positive(size);
    Layout.LittleEndianBytes(Truncated(n, size), size)
  }

  /** What an assignment stores; nothing if its text is no expression, since then there is no program. */
  function Stored(s: Stmt, e: Event): seq<Byte> {
    match s
    case Init(_, size, text) =>
      var value := Worth(e.arith, e.kernel, text);
      if value.Some? then NumberBytes(value.value, size) else []
    case ProbeRead(_, source) => e.raw(Written(source))
    case GetComm(_) => e.comm
    case GetPid(_) => NumberBytes(e.pidTgid / 0x1_0000_0000, 4)
    case _ => []
  }

  predicate IsAssignment(s: Stmt) {
    s.Init? || s.ProbeRead? || s.GetComm? || s.GetPid?
  }

  /** A condition over the record. */
  predicate CondHolds(v4: bool, cond: string, e: Event, rec: Record) {
    e.holds(Read(Tokens(cond), map[], Data(v4), rec))
  }

  /** The hash afterwards, and the record if one was submitted. */
  function Exec(stmts: seq<Stmt>, e: Event, rec: Record, samples: Samples): (Samples, Option<Record>) {
    if stmts == [] then (samples, None)
    else
      match stmts[0]
      case ReturnIf(v4, cond) =>
        if CondHolds(v4, cond, e, rec) then (samples, None) else Exec(stmts[1..], e, rec, samples)
      case Sample(limit) =>
        var (go, samples') := Counter.SampleStep(limit, samples, e.sock);
        if go then Exec(stmts[1..], e, rec, samples') else (samples', None)
      case Submit => (samples, Some(rec))
      case _ => Exec(stmts[1..], e, rec[stmts[0].member := Stored(stmts[0], e)], samples)
  }

  // ---------------------------------------------------------------- what the record holds

  /** Where the kernel keeps a field: its member behind the source's pointer or struct. */
  function PathTokens(a: FieldAttrs): seq<string> {
    Written(a.ds) + (if a.dsnp then [".", a.cField] else ["-", ">", a.cField])
  }

  /** The user's math on the table's math on the kernel's value. */
  function FieldValue(f: ReqField, e: Event): int {
    AfterMath(e.arith, e.kernel, AfterMath(e.arith, e.kernel, e.kernel(PathTokens(f.attrs)), f.attrs.math), f.umath)
  }

  /** What member i should hold. */
  function Wanted(v4: bool, f: ReqField, e: Event): seq<Byte> {
    if f.attrs.ds == GET_COMM then e.comm
    else if f.attrs.ds == GET_PID then NumberBytes(e.pidTgid / 0x1_0000_0000, 4)
    else if !v4 && IsAddress6(f.attrs) then
      e.raw(Written(f.attrs.ds) + [".", f.attrs.cField] + [".", "in6_u"] + [".", "u6_addr32"])
    else NumberBytes(FieldValue(f, e), Layout.Size(f.attrs))
  }

  /** A field is read either from kernel memory or by one of the two helpers; only the task's name is a helper's array;
      helpers and raw reads fill members of their own size; what is read from memory is behind a pointer. */
  predicate WellSourced(a: FieldAttrs) {
    && (IsBPF(a) <==> a.ds == GET_COMM || a.ds == GET_PID)
    && (a.cField == COMM_FIELD <==> a.ds == GET_COMM)
    && (IsAddress6(a) ==> !IsBPF(a))
    && (a.ds == GET_COMM <==> a.ctype.Char?) && (a.ds == GET_PID ==> a.ctype.U32?) && (IsAddress6(a) ==> a.ctype.U128?)
    && GoodCField(a.cField) && IsWord(a.cField)
    && (!IsBPF(a) ==> IsPath(Written(a.ds)) && FollowsPath(a.math) && Bases(Written(a.math)) == [])
  }

  /** The user's math is written into the program for this field. */
  predicate UsesMath(v4: bool, a: FieldAttrs) {
    !IsBPF(a) && (v4 || !IsAddress6(a))
  }

  /** The brackets of all math that is used match. */
  predicate AllMathCloses(v4: bool, fields: seq<ReqField>) {
    forall i :: 0 <= i < |fields| && UsesMath(v4, fields[i].attrs) ==> MathCloses(fields[i].umath)
  }

  predicate AllWellSourced(fields: seq<ReqField>) {
    forall i :: 0 <= i < |fields| ==> WellSourced(fields[i].attrs)
  }

  ghost predicate Assignments(stmts: seq<Stmt>) {
    forall i :: 0 <= i < |stmts| ==> IsAssignment(stmts[i])
  }

  /** The record after the assignments in `stmts`. */
  function Assigned(stmts: seq<Stmt>, e: Event, rec: Record): Record
    requires Assignments(stmts)
  {
    if stmts == [] then rec
    else
      assert IsAssignment(stmts[0]);
      Assigned(stmts[1..], e, rec[stmts[0].member := Stored(stmts[0], e)])
  }

  lemma {:induction false} ExecAssignments(stmts: seq<Stmt>, rest: seq<Stmt>, e: Event, rec: Record, samples: Samples)
    requires Assignments(stmts)
    ensures Exec(stmts + rest, e, rec, samples) == Exec(rest, e, Assigned(stmts, e, rec), samples)
  {
    if stmts == [] {
      assert stmts + rest == rest;
    } else {
      assert IsAssignment(stmts[0]);
      assert (stmts + rest)[1..] == stmts[1..] + rest;
      ExecAssignments(stmts[1..], rest, e, rec[stmts[0].member := Stored(stmts[0], e)], samples);
    }
  }

  /** The members that the fields from i on declare, of those read by helpers (bpf) or of the others. */
  function NamesFrom(fields: seq<ReqField>, i: nat, bpf: bool): set<string> {
    set j | i <= j < |fields| && IsBPF(fields[j].attrs) == bpf :: MemberName(fields[j].attrs, j)
  }

  function Pass(v4: bool, fields: seq<ReqField>, i: nat, bpf: bool): seq<Stmt>
    requires i <= |fields|
  {
    if bpf then Helpers(fields, i) else Inits(v4, fields, i)
  }

  function PassStmt(v4: bool, f: ReqField, i: nat, bpf: bool): seq<Stmt> {
    if bpf then HelperStmt(f, i) else InitStmt(v4, f, i)
  }

  lemma WrittenPath(a: FieldAttrs)
    requires WellSourced(a) && !IsBPF(a)
    ensures Written(Path(a)) == PathTokens(a) && IsPath(PathTokens(a))
  {
    PathGrows(Written(a.ds), a.cField);
    if a.dsnp {
      WrittenDot(a.ds, a.cField);
    } else {
      WrittenArrow(a.ds, a.cField);
    }
  }

  /** The text of an initialiser is worth the field's value, if and only if the brackets of the user's math match. */
  lemma InitTextIsWorth(f: ReqField, e: Event)
    requires WellSourced(f.attrs) && !IsBPF(f.attrs)
    ensures Worth(e.arith, e.kernel, InitText(f)) == if MathCloses(f.umath) then Some(FieldValue(f, e)) else None
  {
    WrittenPath(f.attrs);
    InitialiserIsWorth(e.arith, e.kernel, Path(f.attrs), f.attrs.math, f.umath);
  }

  lemma ThreeDots(s: string, x: string, y: string, z: string)
    requires IsWord(x) && IsWord(y) && IsWord(z)
    ensures Written(s + "." + x + "." + y + "." + z) == Written(s) + [".", x] + [".", y] + [".", z]
  {
    WrittenDot(s, x);
    WrittenDot(s + "." + x, y);
    WrittenDot(s + "." + x + "." + y, z);
  }

  lemma RawText(s: string)
    ensures s + ".in6_u.u6_addr32" == s + "." + "in6_u" + "." + "u6_addr32"
  {
    assert ".in6_u.u6_addr32" == "." + "in6_u" + "." + "u6_addr32";
  }

  lemma RawWords()
    ensures IsWord("in6_u") && IsWord("u6_addr32")
  {
  }

  lemma RawSource(a: FieldAttrs)
    requires IsWord(a.cField)
    ensures Written(a.ds + "." + a.cField + ".in6_u.u6_addr32")
         == Written(a.ds) + [".", a.cField] + [".", "in6_u"] + [".", "u6_addr32"]
  {
    RawText(a.ds + "." + a.cField);
    RawWords();
    ThreeDots(a.ds, a.cField, "in6_u", "u6_addr32");
  }

  /** An initialiser stores what is wanted if and only if the brackets of the user's math match. */
  lemma InitStores(v4: bool, f: ReqField, i: nat, e: Event)
    requires WellSourced(f.attrs) && UsesMath(v4, f.attrs)
    ensures |InitStmt(v4, f, i)| == 1
    ensures Stored(InitStmt(v4, f, i)[0], e) == Wanted(v4, f, e) <==> MathCloses(f.umath)
  {
    InitTextIsWorth(f, e);
    assert Layout.Size(f.attrs) > 0;
  }

  /** What member i gets: what it should hold, unless the user's math spoils its initialiser. */
  function Given(v4: bool, f: ReqField, e: Event): seq<Byte> {
    if UsesMath(v4, f.attrs) && !MathCloses(f.umath) then [] else Wanted(v4, f, e)
  }

  lemma GivenIsWanted(v4: bool, f: ReqField, e: Event)
    requires WellSourced(f.attrs)
    ensures Given(v4, f, e) == Wanted(v4, f, e) <==> (UsesMath(v4, f.attrs) ==> MathCloses(f.umath))
  {
    assert Layout.Size(f.attrs) > 0;
    assert UsesMath(v4, f.attrs) ==> |Wanted(v4, f, e)| == Layout.Size(f.attrs);
  }

  lemma PassStmtAssigns(v4: bool, f: ReqField, i: nat, bpf: bool, e: Event)
    requires WellSourced(f.attrs)
    ensures var s := PassStmt(v4, f, i, bpf);
            if IsBPF(f.attrs) == bpf then
              && |s| == 1 && IsAssignment(s[0])
              && s[0].member == MemberName(f.attrs, i) && Stored(s[0], e) == Given(v4, f, e)
            else s == []
  {
    if UsesMath(v4, f.attrs) {
      InitTextIsWorth(f, e);
    } else if IsAddress6(f.attrs) {
      RawSource(f.attrs);
    }
  }

  /** `after` is `before` with exactly the members of the handled fields from i on set to what they are given. */
  ghost predicate Sets(v4: bool, fields: seq<ReqField>, i: nat, bpf: bool, e: Event, before: Record, after: Record) {
    && after.Keys == before.Keys + NamesFrom(fields, i, bpf)
    && (forall j :: i <= j < |fields| && IsBPF(fields[j].attrs) == bpf ==> HoldsGiven(v4, fields, j, e, after))
    && (forall m :: m in before && m !in NamesFrom(fields, i, bpf) ==> after[m] == before[m])
  }

  ghost predicate HoldsGiven(v4: bool, fields: seq<ReqField>, j: nat, e: Event, rec: Record)
    requires j < |fields|
  {
    var name := MemberName(fields[j].attrs, j);
    name in rec && rec[name] == Given(v4, fields[j], e)
  }

  ghost predicate HoldsWanted(v4: bool, fields: seq<ReqField>, j: nat, e: Event, rec: Record)
    requires j < |fields|
  {
    var name := MemberName(fields[j].attrs, j);
    name in rec && rec[name] == Wanted(v4, fields[j], e)
  }

  lemma SetsStep(v4: bool, fields: seq<ReqField>, i: nat, bpf: bool, e: Event, before: Record, after: Record)
    requires i < |fields| && DistinctMembers(fields)
    requires var name := MemberName(fields[i].attrs, i);
             if IsBPF(fields[i].attrs) == bpf then
               Sets(v4, fields, i + 1, bpf, e, before[name := Given(v4, fields[i], e)], after)
             else Sets(v4, fields, i + 1, bpf, e, before, after)
    ensures Sets(v4, fields, i, bpf, e, before, after)
  {
    NamesFromStep(fields, i, bpf);
  }

  lemma NamesFromStep(fields: seq<ReqField>, i: nat, bpf: bool)
    requires i < |fields| && DistinctMembers(fields)
    ensures var name, later := MemberName(fields[i].attrs, i), NamesFrom(fields, i + 1, bpf);
            && name !in later
            && NamesFrom(fields, i, bpf) == if IsBPF(fields[i].attrs) == bpf then later + {name} else later
  {
  }

  lemma AssignedFirst(s: seq<Stmt>, rest: seq<Stmt>, e: Event, rec: Record)
    requires |s| == 1 && IsAssignment(s[0]) && Assignments(rest)
    ensures Assignments(s + rest)
    ensures Assigned(s + rest, e, rec) == Assigned(rest, e, rec[s[0].member := Stored(s[0], e)])
  {
  }

  /** One pass over the fields from i on sets exactly the members of the fields it handles. */
  lemma {:induction false} PassSets(v4: bool, fields: seq<ReqField>, i: nat, bpf: bool, e: Event, rec: Record)
    requires i <= |fields| && AllWellSourced(fields) && DistinctMembers(fields)
    ensures Assignments(Pass(v4, fields, i, bpf))
    ensures Sets(v4, fields, i, bpf, e, rec, Assigned(Pass(v4, fields, i, bpf), e, rec))
    decreases |fields| - i
  {
    if i < |fields| {
      var s := PassStmt(v4, fields[i], i, bpf);
      var rest := Pass(v4, fields, i + 1, bpf);
      PassStmtAssigns(v4, fields[i], i, bpf, e);
      assert Pass(v4, fields, i, bpf) == s + rest;
      if IsBPF(fields[i].attrs) == bpf {
        var next := rec[s[0].member := Stored(s[0], e)];
        PassSets(v4, fields, i + 1, bpf, e, next);
        AssignedFirst(s, rest, e, rec);
        SetsStep(v4, fields, i, bpf, e, rec, Assigned(rest, e, next));
      } else {
        PassSets(v4, fields, i + 1, bpf, e, rec);
        assert s + rest == rest;
        SetsStep(v4, fields, i, bpf, e, rec, Assigned(rest, e, rec));
      }
    } else {
      assert NamesFrom(fields, i, bpf) == {};
    }
  }

  /** The record a block should submit: every member of the struct, with what it should hold. */
  function FullRecord(v4: bool, fields: seq<ReqField>, e: Event, n: nat): Record
    requires n <= |fields|
  {
    if n == 0 then map[]
    else FullRecord(v4, fields, e, n - 1)[MemberName(fields[n - 1].attrs, n - 1) := Wanted(v4, fields[n - 1], e)]
  }

  function NamesBelow(fields: seq<ReqField>, n: nat): set<string>
    requires n <= |fields|
  {
    set j | 0 <= j < n :: MemberName(fields[j].attrs, j)
  }

  /** `rec` has the first n members and no others, and each holds what it should. */
  ghost predicate IsFull(v4: bool, fields: seq<ReqField>, e: Event, n: nat, rec: Record)
    requires n <= |fields|
  {
    rec.Keys == NamesBelow(fields, n) && forall j :: 0 <= j < n ==> HoldsWanted(v4, fields, j, e, rec)
  }

  lemma {:induction false} FullRecordIsFull(v4: bool, fields: seq<ReqField>, e: Event, n: nat)
    requires n <= |fields| && DistinctMembers(fields)
    ensures IsFull(v4, fields, e, n, FullRecord(v4, fields, e, n))
  {
    if n > 0 {
      var name := MemberName(fields[n - 1].attrs, n - 1);
      var before := FullRecord(v4, fields, e, n - 1);
      var after := FullRecord(v4, fields, e, n);
      FullRecordIsFull(v4, fields, e, n - 1);
      assert NamesBelow(fields, n) == NamesBelow(fields, n - 1) + {name};
      assert HoldsWanted(v4, fields, n - 1, e, after);
      forall j: nat | j < n - 1
        ensures HoldsWanted(v4, fields, j, e, after)
      {
        assert HoldsWanted(v4, fields, j, e, before);
        assert MemberName(fields[j].attrs, j) != name;
      }
    }
  }

  lemma FullRecordIsUnique(v4: bool, fields: seq<ReqField>, e: Event, a: Record, b: Record)
    requires IsFull(v4, fields, e, |fields|, a) && IsFull(v4, fields, e, |fields|, b)
    ensures a == b
  {
    forall m | m in a
      ensures a[m] == b[m]
    {
      var j :| 0 <= j < |fields| && MemberName(fields[j].attrs, j) == m;
      assert HoldsWanted(v4, fields, j, e, a) && HoldsWanted(v4, fields, j, e, b);
    }
  }

  lemma TwoPassesGiveAll(v4: bool, fields: seq<ReqField>, e: Event, first: Record, last: Record)
    requires DistinctMembers(fields)
    requires Sets(v4, fields, 0, false, e, map[], first) && Sets(v4, fields, 0, true, e, first, last)
    ensures last.Keys == NamesBelow(fields, |fields|)
    ensures forall j :: 0 <= j < |fields| ==> HoldsGiven(v4, fields, j, e, last)
  {
    BothFamilies(fields);
    forall j | 0 <= j < |fields|
      ensures HoldsGiven(v4, fields, j, e, last)
    {
      if !IsBPF(fields[j].attrs) {
        assert HoldsGiven(v4, fields, j, e, first);
        NotAmongHelpers(fields, j);
      }
    }
  }

  lemma BothFamilies(fields: seq<ReqField>)
    ensures NamesFrom(fields, 0, false) + NamesFrom(fields, 0, true) == NamesBelow(fields, |fields|)
  {
  }

  lemma NotAmongHelpers(fields: seq<ReqField>, j: nat)
    requires DistinctMembers(fields) && j < |fields| && !IsBPF(fields[j].attrs)
    ensures MemberName(fields[j].attrs, j) !in NamesFrom(fields, 0, true)
  {
  }

  lemma GivenIsFull(v4: bool, fields: seq<ReqField>, e: Event, rec: Record)
    requires AllWellSourced(fields) && rec.Keys == NamesBelow(fields, |fields|)
    requires forall j :: 0 <= j < |fields| ==> HoldsGiven(v4, fields, j, e, rec)
    ensures IsFull(v4, fields, e, |fields|, rec) <==> AllMathCloses(v4, fields)
  {
    forall j | 0 <= j < |fields|
      ensures HoldsWanted(v4, fields, j, e, rec)
         <==> (UsesMath(v4, fields[j].attrs) ==> MathCloses(fields[j].umath))
    {
      assert HoldsGiven(v4, fields, j, e, rec);
      GivenIsWanted(v4, fields[j], e);
    }
  }

  /** Both passes together fill the whole record, each member once, whatever order the fields come in: the assignments
      give every member what its field should hold, if and only if the brackets of all math that is used match. */
  lemma PassesFillRecord(v4: bool, fields: seq<ReqField>, e: Event)
    requires AllWellSourced(fields) && DistinctMembers(fields)
    ensures Assignments(Inits(v4, fields, 0)) && Assignments(Helpers(fields, 0))
    ensures Assigned(Helpers(fields, 0), e, Assigned(Inits(v4, fields, 0), e, map[]))
         == FullRecord(v4, fields, e, |fields|)
       <==> AllMathCloses(v4, fields)
  {
    PassSets(v4, fields, 0, false, e, map[]);
    var first := Assigned(Inits(v4, fields, 0), e, map[]);
    PassSets(v4, fields, 0, true, e, first);
    var last := Assigned(Helpers(fields, 0), e, first);
    TwoPassesGiveAll(v4, fields, e, first, last);
    GivenIsFull(v4, fields, e, last);
    FullRecordIsFull(v4, fields, e, |fields|);
    if AllMathCloses(v4, fields) {
      FullRecordIsUnique(v4, fields, e, last, FullRecord(v4, fields, e, |fields|));
    }
  }

  // ---------------------------------------------------------------- what a block does

  /** Some filter holds of the record. */
  ghost predicate Filtered(v4: bool, fields: seq<ReqField>, e: Event, rec: Record) {
    exists i :: 0 <= i < |fields| && fields[i].filter != "" && CondHolds(v4, fields[i].filter, e, rec)
  }

  lemma FilteredSplits(v4: bool, fields: seq<ReqField>, e: Event, rec: Record)
    requires fields != []
    ensures Filtered(v4, fields, e, rec)
       <==> (fields[0].filter != "" && CondHolds(v4, fields[0].filter, e, rec)) || Filtered(v4, fields[1..], e, rec)
  {
  }

  lemma {:induction false} ExecFilters(v4: bool, fields: seq<ReqField>, rest: seq<Stmt>,
                                       e: Event, rec: Record, samples: Samples)
    ensures Exec(FilterStmts(v4, fields) + rest, e, rec, samples)
         == if Filtered(v4, fields, e, rec) then (samples, None) else Exec(rest, e, rec, samples)
  {
    if fields == [] {
      assert [] + rest == rest;
    } else {
      var more := FilterStmts(v4, fields[1..]) + rest;
      ExecFilters(v4, fields[1..], rest, e, rec, samples);
      FilteredSplits(v4, fields, e, rec);
      var first := if fields[0].filter != "" then [ReturnIf(v4, fields[0].filter)] else [];
      ConcatAssoc(first, FilterStmts(v4, fields[1..]), rest);
      if fields[0].filter != "" {
        assert (first + more)[0] == first[0] && (first + more)[1..] == more;
      } else {
        assert first + more == more;
      }
    }
  }

  /** A record that no filter holds back goes through sampling, if there is any. */
  function Sampled(sample: nat, sock: nat, rec: Record, samples: Samples): (Samples, Option<Record>) {
    var (go, samples') := Counter.Step(sample, samples, sock);
    (samples', if go then Some(rec) else None)
  }

  ghost function BlockOutcome(v4: bool, fields: seq<ReqField>, sample: nat, e: Event, samples: Samples):
    (Samples, Option<Record>)
  {
    var full := FullRecord(v4, fields, e, |fields|);
    if Filtered(v4, fields, e, full) then (samples, None) else Sampled(sample, e.sock, full, samples)
  }

  /** A block submits the full record unless a filter holds of it or sampling holds it back. */
  lemma BlockMeaning(v4: bool, fields: seq<ReqField>, sample: nat, e: Event, samples: Samples)
    requires AllWellSourced(fields) && DistinctMembers(fields) && AllMathCloses(v4, fields)
    ensures Exec(Block(v4, fields, sample), e, map[], samples)
         == BlockOutcome(v4, fields, sample, e, samples)
  {
    var end := (if sample != 0 then [Sample(sample)] else []) + [Submit];
    var filters := FilterStmts(v4, fields) + end;
    PassesFillRecord(v4, fields, e);
    ExecAssignments(Inits(v4, fields, 0), Helpers(fields, 0) + filters, e, map[], samples);
    var first := Assigned(Inits(v4, fields, 0), e, map[]);
    ExecAssignments(Helpers(fields, 0), filters, e, first, samples);
    var full := FullRecord(v4, fields, e, |fields|);
    ExecFilters(v4, fields, end, e, full, samples);
    ExecEnd(sample, e, full, samples);
  }

  lemma ExecEnd(sample: nat, e: Event, rec: Record, samples: Samples)
    ensures Exec((if sample != 0 then [Sample(sample)] else []) + [Submit], e, rec, samples)
         == Sampled(sample, e.sock, rec, samples)
  {
  }
}
