/** From a kernel event to the printed record: the generated program fills the struct, the agent's decoder reads it. */
module Chain {
  import opened Text
  import opened Fields
  import opened Decoding
  import opened StructPB
  import opened Layout
  import opened Program
  import opened Sampling
  import opened Relay
  import opened CGen

  /** `data` holds the members of a record where the struct's layout puts them. */
  ghost predicate ImageOf(attrs: seq<FieldAttrs>, rec: Record, data: seq<Byte>) {
    && End(attrs, |attrs|) <= |data|
    && forall i :: 0 <= i < |attrs| ==>
         MemberName(attrs[i], i) in rec && Bytes(data, Offset(attrs, i), Size(attrs[i])) == rec[MemberName(attrs[i], i)]
  }

  /** Task names and raw addresses are sixteen bytes in the kernel. */
  ghost predicate SixteenByteArrays(e: Event) {
    |e.comm| == 16 && forall s :: |e.raw(s)| == 16
  }

  lemma WantedHasSize(v4: bool, f: ReqField, e: Event)
    requires WellSourced(f.attrs) && SixteenByteArrays(e)
    ensures |Wanted(v4, f, e)| == Size(f.attrs)
  {
    SizesOfSpecial(f.attrs);
  }

  /** What helpers and raw reads fill has their size. */
  lemma SizesOfSpecial(a: FieldAttrs)
    requires WellSourced(a)
    ensures a.ds == GET_COMM ==> Size(a) == 16
    ensures a.ds == GET_PID ==> Size(a) == 4
    ensures IsAddress6(a) ==> Size(a) == 16
  {
  }

  /** The value that field f of an event should be shown with. */
  function ShownOf(v4: bool, f: ReqField, e: Event, ip6: seq<Byte> -> string): Value
    requires WellSourced(f.attrs) && SixteenByteArrays(e)
  {
    WantedHasSize(v4, f, e);
    Meaning(f.attrs, Wanted(v4, f, e), ip6)
  }

  /** The number that the program stores for a field: what its C expression is worth, or the process id, reduced to the
      member's size. */
  function StoredNumber(f: ReqField, e: Event): nat {
    Pow256Positive(Size(f.attrs));
    (if f.attrs.ds == GET_PID then e.pidTgid / 0x1_0000_0000 else FieldValue(f, e)) % Pow256(Size(f.attrs))
  }

  /** What the agent makes of a stored number n. */
  function PortAsShown(name: string, n: nat): nat {
    if IsPort(name) then n % 0x100 * 0x100 + n / 0x100 else n
  }

  lemma WantedNumber(v4: bool, f: ReqField, e: Event)
    requires WellSourced(f.attrs) && !Quoted(f.attrs)
    ensures Wanted(v4, f, e) == LittleEndianBytes(StoredNumber(f, e), Size(f.attrs))
    ensures StoredNumber(f, e) < Pow256(Size(f.attrs))
  {
    Pow256Positive(Size(f.attrs));
    assert Pow256(4) == 0x1_0000_0000;
  }

  lemma ConsistentNumber(v4: bool, name: string, f: ReqField, e: Event, ip6: seq<Byte> -> string)
    requires WellSourced(f.attrs) && Consistent(name, f.attrs) && !Quoted(f.attrs) && SixteenByteArrays(e)
    ensures var n := StoredNumber(f, e);
            && ShownOf(v4, f, e, ip6) == Num(PortAsShown(name, n))
            && (PortAsShown(name, n) == n <==> (IsPort(name) ==> n / 0x100 == n % 0x100))
  {
    WantedNumber(v4, f, e);
    AsReadMeaning(f.attrs, StoredNumber(f, e));
  }

  /** Every number of the table is shown as it was stored, except the two ports: they are shown with their bytes
      swapped, and so as a filter or the user's math sees them only when both bytes are equal. */
  lemma NumberIsShown(v4: bool, name: string, f: ReqField, e: Event, ip6: seq<Byte> -> string)
    requires name in TableOf(v4) && f.attrs == TableOf(v4)[name]
    requires !Quoted(f.attrs) && SixteenByteArrays(e)
    ensures WellSourced(f.attrs)
    ensures var n := StoredNumber(f, e);
            && ShownOf(v4, f, e, ip6) == Num(PortAsShown(name, n))
            && (ShownOf(v4, f, e, ip6) == Num(n) <==> (IsPort(name) ==> n / 0x100 == n % 0x100))
  {
    TableIsGenerable(v4, name);
    TablesAreConsistent(v4, name);
    ConsistentNumber(v4, name, f, e, ip6);
  }

  /** The local port's source. */
  predicate IsLocalPort(a: FieldAttrs) {
    a.ctype.U16? && a.ds == "sk->__sk_common" && a.cField == "skc_num" && a.bigEndian
  }

  lemma LocalPortOfTable(v4: bool)
    ensures "LPort" in TableOf(v4) && IsLocalPort(TableOf(v4)["LPort"])
  {
    assert "LPort" in OtherFields() && IsLocalPort(OtherFields()["LPort"]);
    assert "LPort" != "SAddr" && "LPort" != "DAddr" by {
      assert "LPort"[0] == 'L' && "SAddr"[0] == 'S' && "DAddr"[0] == 'D';
    }
  }

  lemma ValueIsStored(f: ReqField, e: Event)
    requires f.attrs.ds != GET_PID
    ensures Pow256(Size(f.attrs)) > 0 && StoredNumber(f, e) == FieldValue(f, e) % Pow256(Size(f.attrs))
  {
    Pow256Positive(Size(f.attrs));
  }

  lemma PortIsSwapped(v4: bool, f: ReqField, e: Event, ip6: seq<Byte> -> string)
    requires IsLocalPort(f.attrs) && WellSourced(f.attrs) && Consistent("LPort", f.attrs) && SixteenByteArrays(e)
    requires FieldValue(f, e) == 443
    ensures ShownOf(v4, f, e, ip6) == Num(47873)
  {
    ConsistentNumber(v4, "LPort", f, e, ip6);
    assert Pow256(2) == 0x1_0000;
    assert "sk->__sk_common"[0] == 's' && GET_PID[0] == 'b';
    ValueIsStored(f, e);
    assert 443 % 0x1_0000 == 443;
  }

  /** `skc_num` is a number in the machine's byte order, so the local port 443 is shown as 47873. */
  lemma LocalPortIsSwapped(v4: bool, f: ReqField, e: Event, ip6: seq<Byte> -> string)
    requires "LPort" in TableOf(v4) && f.attrs == TableOf(v4)["LPort"] && SixteenByteArrays(e)
    requires FieldValue(f, e) == 443
    ensures WellSourced(f.attrs) && ShownOf(v4, f, e, ip6) == Num(47873)
  {
    LocalPortOfTable(v4);
    TableIsGenerable(v4, "LPort");
    TablesAreConsistent(v4, "LPort");
    PortIsSwapped(v4, f, e, ip6);
  }

  /** The number whose bytes, lowest first, are an address of IPv4 in memory. */
  function AddressBytes(n: nat): seq<int> {
    [n % 0x100, n / 0x100 % 0x100, n / 0x1_0000 % 0x100, n / 0x100_0000 % 0x100]
  }

  lemma FourBytes(n: nat)
    ensures LittleEndianBytes(n, 4) == AddressBytes(n)
  {
    var n1, n2, n3 := n / 0x100, n / 0x100 / 0x100, n / 0x100 / 0x100 / 0x100;
    assert n2 == n / 0x1_0000 && n3 == n / 0x100_0000;
    assert LittleEndianBytes(n3, 1) == [n3 % 0x100] + LittleEndianBytes(n3 / 0x100, 0);
    assert LittleEndianBytes(n2, 2) == [n2 % 0x100] + LittleEndianBytes(n3, 1);
    assert LittleEndianBytes(n1, 3) == [n1 % 0x100] + LittleEndianBytes(n2, 2);
  }

  predicate IsAddress4(a: FieldAttrs) {
    a.ctype.U32? && a.ip && !IsBPF(a)
  }

  lemma AddressIsQuad(f: ReqField, e: Event, ip6: seq<Byte> -> string)
    requires IsAddress4(f.attrs) && WellSourced(f.attrs) && SixteenByteArrays(e)
    ensures var v := ShownOf(true, f, e, ip6);
            v.Str? && IsDottedQuad(v.s, AddressBytes(StoredNumber(f, e)))
  {
    var b := Wanted(true, f, e);
    WantedHasSize(true, f, e);
    Pow256Positive(4);
    FourBytes(StoredNumber(f, e));
    assert b == LittleEndianBytes(StoredNumber(f, e), 4);
    DottedDecimalIsRead(b);
  }

  lemma AddressOfTable(name: string)
    requires name == "SAddr" || name == "DAddr"
    ensures name in TableOf(true) && IsAddress4(TableOf(true)[name])
  {
    assert name in OtherFields() && OtherFields()[name].ctype.U32? && OtherFields()[name].ip;
    AddressSource(name);
    HelperSources("sk->__sk_common");
    assert "sk->__sk_common"[0] == 's' && GET_COMM[0] == 'b' && GET_PID[0] == 'b';
  }

  /** An address of IPv4 is shown as a dotted quad in which one reads the bytes stored for the event, first to last. */
  lemma AddressIsShown(name: string, f: ReqField, e: Event, ip6: seq<Byte> -> string)
    requires (name == "SAddr" || name == "DAddr") && SixteenByteArrays(e)
    requires name in TableOf(true) && f.attrs == TableOf(true)[name]
    ensures WellSourced(f.attrs)
    ensures var v := ShownOf(true, f, e, ip6);
            v.Str? && IsDottedQuad(v.s, AddressBytes(StoredNumber(f, e)))
  {
    AddressOfTable(name);
    TableIsGenerable(true, name);
    AddressIsQuad(f, e, ip6);
  }

  /** A task's name is shown up to its first NUL, byte by byte. */
  lemma TaskIsShown(v4: bool, f: ReqField, e: Event, ip6: seq<Byte> -> string)
    requires f.attrs.ctype.Char? && WellSourced(f.attrs) && SixteenByteArrays(e)
    ensures var v := ShownOf(v4, f, e, ip6);
            && v.Str? && |v.s| <= 16 && (|v.s| < 16 ==> e.comm[|v.s|] == 0)
            && forall i :: 0 <= i < |v.s| ==> e.comm[i] != 0 && v.s[i] == e.comm[i] as char
  {
    WantedHasSize(v4, f, e);
    CommTextIsPrefix(e.comm);
  }

  lemma ShownAt(v4: bool, attrs: seq<FieldAttrs>, req: seq<ReqField>, i: nat, e: Event, rec: Record,
                data: seq<Byte>, ip6: seq<Byte> -> string, v: Value)
    requires i < |attrs| == |req| && attrs[i] == req[i].attrs
    requires WellSourced(req[i].attrs) && SixteenByteArrays(e)
    requires ImageOf(attrs, rec, data) && HoldsWanted(v4, req, i, e, rec) && Holds(attrs, data, ip6, i, v)
    ensures v == ShownOf(v4, req[i], e, ip6)
  {
    WantedHasSize(v4, req[i], e);
  }

  lemma ShownThroughout(v4: bool, attrs: seq<FieldAttrs>, req: seq<ReqField>, e: Event, rec: Record,
                        data: seq<Byte>, ip6: seq<Byte> -> string, values: seq<Value>)
    requires |attrs| == |req| == |values| && AllWellSourced(req) && SixteenByteArrays(e)
    requires forall i :: 0 <= i < |attrs| ==> attrs[i] == req[i].attrs
    requires ImageOf(attrs, rec, data) && IsFull(v4, req, e, |req|, rec) && AllHold(attrs, data, ip6, values)
    ensures forall i :: 0 <= i < |req| ==> values[i] == ShownOf(v4, req[i], e, ip6)
  {
    forall i | 0 <= i < |req|
      ensures values[i] == ShownOf(v4, req[i], e, ip6)
    {
      assert Holds(attrs, data, ip6, i, values[i]);
      assert HoldsWanted(v4, req, i, e, rec);
      ShownAt(v4, attrs, req, i, e, rec, data, ip6, values[i]);
    }
  }

  lemma SameAttrs(v4: bool, fields: seq<ConfigField>)
    requires Selectable(TableOf(v4), fields)
    ensures var attrs, req := AttrsOf(TableOf(v4), NamesOf(fields)), ReqFields(v4, fields);
            forall i :: 0 <= i < |fields| ==> attrs[i] == req[i].attrs
  {
  }

  lemma ImageDecodes(model: Model, names: seq<string>, data: seq<Byte>, ip6: seq<Byte> -> string)
    requires Known(model, names)
    requires End(AttrsOf(model, names), |names|) < UINT16 && End(AttrsOf(model, names), |names|) <= |data|
    ensures var r := DecodeFrom(model, names, data, ip6, 0, 0, []);
            r.Ok? && AllHold(AttrsOf(model, names), data, ip6, r.value)
  {
    assert End(AttrsOf(model, names), 0) == 0;
    DecodeFollowsLayout(model, names, data, ip6, AttrsOf(model, names), 0, []);
  }

  /** The agent shows any image of a full record as what was read for the event, field by field. */
  lemma ImageIsShown(v4: bool, fields: seq<ConfigField>, e: Event, rec: Record, data: seq<Byte>,
                     ip6: seq<Byte> -> string)
    requires Selectable(TableOf(v4), fields) && SixteenByteArrays(e)
    requires End(AttrsOf(TableOf(v4), NamesOf(fields)), |fields|) < UINT16
    requires IsFull(v4, ReqFields(v4, fields), e, |fields|, rec)
    requires ImageOf(AttrsOf(TableOf(v4), NamesOf(fields)), rec, data)
    ensures AllWellSourced(ReqFields(v4, fields))
    ensures var r := DecodeFrom(TableOf(v4), NamesOf(fields), data, ip6, 0, 0, []);
            r.Ok? && forall i :: 0 <= i < |fields| ==> r.value[i] == ShownOf(v4, ReqFields(v4, fields)[i], e, ip6)
  {
    var attrs := AttrsOf(TableOf(v4), NamesOf(fields));
    RequestedFieldsAreGood(v4, fields);
    SameAttrs(v4, fields);
    ImageDecodes(TableOf(v4), NamesOf(fields), data, ip6);
    var values := DecodeFrom(TableOf(v4), NamesOf(fields), data, ip6, 0, 0, []).value;
    ShownThroughout(v4, attrs, ReqFields(v4, fields), e, rec, data, ip6, values);
  }

  lemma SubmittedIsFull(tp: Tracepoint, v4: bool, events: seq<Event>, n: nat)
    requires WellFormed(tp) && n < |events| && Submission(tp, v4, events, n).Some?
    ensures IsFull(v4, FieldsOf(tp, v4), events[n], |FieldsOf(tp, v4)|, Submission(tp, v4, events, n).value)
  {
    SubmissionMeaning(tp, v4, events, n);
    FullRecordIsFull(v4, FieldsOf(tp, v4), events[n], |FieldsOf(tp, v4)|);
  }

  /** Whatever a tracepoint submits for an event, the agent shows, field by field, what was read for that event: the
      slots the program fills are those the decoder reads, in the same order and with the same meaning. */
  lemma SubmittedIsShown(tp: Tracepoint, v4: bool, fields: seq<ConfigField>, events: seq<Event>, n: nat,
                         data: seq<Byte>, ip6: seq<Byte> -> string)
    requires Selectable(TableOf(v4), fields) && End(AttrsOf(TableOf(v4), NamesOf(fields)), |fields|) < UINT16
    requires WellFormed(tp) && FieldsOf(tp, v4) == ReqFields(v4, fields)
    requires n < |events| && SixteenByteArrays(events[n]) && Submission(tp, v4, events, n).Some?
    requires ImageOf(AttrsOf(TableOf(v4), NamesOf(fields)), Submission(tp, v4, events, n).value, data)
    ensures AllWellSourced(ReqFields(v4, fields))
    ensures var r := DecodeFrom(TableOf(v4), NamesOf(fields), data, ip6, 0, 0, []);
            && r.Ok?
            && forall i :: 0 <= i < |fields| ==> r.value[i] == ShownOf(v4, ReqFields(v4, fields)[i], events[n], ip6)
  {
    SubmittedIsFull(tp, v4, events, n);
    ImageIsShown(v4, fields, events[n], Submission(tp, v4, events, n).value, data, ip6);
  }

  lemma MeaningKind(name: string, v4: bool, b: seq<Byte>, ip6: seq<Byte> -> string)
    requires name in TableOf(v4) && |b| == Size(TableOf(v4)[name])
    ensures Meaning(TableOf(v4)[name], b, ip6).Str? <==> IsString(name)
    ensures name != "Hostname" && name != "Timestamp"
  {
    TablesAreConsistent(v4, name);
  }

  lemma ShownKind(v4: bool, name: string, f: ReqField, e: Event, ip6: seq<Byte> -> string)
    requires name in TableOf(v4) && f.attrs == TableOf(v4)[name] && WellSourced(f.attrs) && SixteenByteArrays(e)
    ensures ShownOf(v4, f, e, ip6).Str? <==> IsString(name)
    ensures name != "Hostname" && name != "Timestamp"
  {
    WantedHasSize(v4, f, e);
    MeaningKind(name, v4, Wanted(v4, f, e), ip6);
  }

  /** What is shown for an event is of the kinds that the parser expects. */
  lemma ShownKinds(v4: bool, fields: seq<ConfigField>, e: Event, ip6: seq<Byte> -> string, values: seq<Value>)
    requires Selectable(TableOf(v4), fields) && SixteenByteArrays(e) && |values| == |fields|
    requires AllWellSourced(ReqFields(v4, fields))
    requires forall i :: 0 <= i < |fields| ==> values[i] == ShownOf(v4, ReqFields(v4, fields)[i], e, ip6)
    ensures KindsAgree(NamesOf(fields), values)
    ensures "Hostname" !in NamesOf(fields) && "Timestamp" !in NamesOf(fields)
  {
    forall i | 0 <= i < |fields|
      ensures values[i].Str? <==> IsString(NamesOf(fields)[i])
      ensures NamesOf(fields)[i] != "Hostname" && NamesOf(fields)[i] != "Timestamp"
    {
      ShownKind(v4, fields[i].name, ReqFields(v4, fields)[i], e, ip6);
    }
  }

  /** What may be shown of a field: a task name without a comma, a stored number within int64; addresses always. */
  predicate RelayableOf(f: ReqField, e: Event) {
    if f.attrs.ctype.Char? then COMMA_BYTE !in BeforeNul(e.comm)
    else Quoted(f.attrs) || StoredNumber(f, e) <= MAX_INT64
  }

  lemma SwappedIsSmall(name: string, n: nat)
    requires IsPort(name) && n < 0x1_0000
    ensures PortAsShown(name, n) <= MAX_INT64 && n <= MAX_INT64
  {
  }

  lemma NumberIsPlain(v4: bool, name: string, f: ReqField, e: Event, ip6: seq<Byte> -> string)
    requires WellSourced(f.attrs) && Consistent(name, f.attrs) && !Quoted(f.attrs) && SixteenByteArrays(e)
    ensures Plain(ShownOf(v4, f, e, ip6)) <==> StoredNumber(f, e) <= MAX_INT64
  {
    ConsistentNumber(v4, name, f, e, ip6);
    WantedNumber(v4, f, e);
    assert Pow256(2) == 0x1_0000;
    if IsPort(name) {
      SwappedIsSmall(name, StoredNumber(f, e));
    }
  }

  lemma TextIsPlain(v4: bool, f: ReqField, e: Event, ip6: seq<Byte> -> string)
    requires WellSourced(f.attrs) && Quoted(f.attrs) && SixteenByteArrays(e) && forall b :: ',' !in ip6(b)
    ensures Plain(ShownOf(v4, f, e, ip6)) <==> (f.attrs.ctype.Char? ==> COMMA_BYTE !in BeforeNul(e.comm))
  {
    var b := Wanted(v4, f, e);
    WantedHasSize(v4, f, e);
    if f.attrs.ctype.Char? {
      CharsHaveComma(BeforeNul(b));
    } else if f.attrs.ctype.U32? {
      DottedDecimalHasNoComma(b);
    }
  }

  /** A field is shown plainly exactly if its event allows it. */
  lemma ShownIsPlain(v4: bool, name: string, f: ReqField, e: Event, ip6: seq<Byte> -> string)
    requires name in TableOf(v4) && f.attrs == TableOf(v4)[name] && WellSourced(f.attrs) && SixteenByteArrays(e)
    requires forall b :: ',' !in ip6(b)
    ensures Plain(ShownOf(v4, f, e, ip6)) <==> RelayableOf(f, e)
  {
    TablesAreConsistent(v4, name);
    if Quoted(f.attrs) {
      TextIsPlain(v4, f, e, ip6);
    } else {
      NumberIsPlain(v4, name, f, e, ip6);
    }
  }

  ghost predicate AllRelayable(req: seq<ReqField>, e: Event) {
    forall i :: 0 <= i < |req| ==> RelayableOf(req[i], e)
  }

  lemma AllShownArePlain(v4: bool, fields: seq<ConfigField>, e: Event, ip6: seq<Byte> -> string, values: seq<Value>)
    requires Selectable(TableOf(v4), fields) && SixteenByteArrays(e) && |values| == |fields|
    requires AllWellSourced(ReqFields(v4, fields)) && forall b :: ',' !in ip6(b)
    requires forall i :: 0 <= i < |fields| ==> values[i] == ShownOf(v4, ReqFields(v4, fields)[i], e, ip6)
    ensures AllPlain(values) <==> AllRelayable(ReqFields(v4, fields), e)
  {
    var req := ReqFields(v4, fields);
    forall i | 0 <= i < |fields|
      ensures Plain(values[i]) <==> RelayableOf(req[i], e)
    {
      ShownIsPlain(v4, fields[i].name, req[i], e, ip6);
    }
  }

  /** From the kernel event to the server: the record parsed from what the agent prints for a submission is the
      intended one exactly when the time is plain and so is the event: a requested task name has no comma, and no
      number that the program stores exceeds int64. */
  lemma EventReachesServer(tp: Tracepoint, v4: bool, fields: seq<ConfigField>, events: seq<Event>, n: nat,
                           data: seq<Byte>, ip6: seq<Byte> -> string, hostname: string, now: int)
    requires Selectable(TableOf(v4), fields) && Distinct(NamesOf(fields))
    requires WellFormed(tp) && FieldsOf(tp, v4) == ReqFields(v4, fields)
    requires n < |events| && SixteenByteArrays(events[n]) && Submission(tp, v4, events, n).Some?
    requires ImageOf(AttrsOf(TableOf(v4), NamesOf(fields)), Submission(tp, v4, events, n).value, data)
    requires MIN_INT64 <= now <= MAX_INT64 && forall b :: ',' !in ip6(b)
    ensures var r := DecodeFrom(TableOf(v4), NamesOf(fields), data, ip6, 0, 0, []);
            && r.Ok?
            && (Parse(NamesOf(fields), hostname, RecordText(NamesOf(fields), r.value, now))
                  == Ok(Intended(NamesOf(fields), r.value, hostname, now))
                <==> AllRelayable(ReqFields(v4, fields), events[n]) && HasPlainTime(now))
  {
    var names := NamesOf(fields);
    DistinctListsFit(v4, names);
    SubmittedIsShown(tp, v4, fields, events, n, data, ip6);
    var values := DecodeFrom(TableOf(v4), names, data, ip6, 0, 0, []).value;
    ShownKinds(v4, fields, events[n], ip6, values);
    AllShownArePlain(v4, fields, events[n], ip6, values);
    ParseInvertsPrint(names, values, hostname, now);
  }
}
