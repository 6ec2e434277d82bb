/** From the kernel's struct to the record a server receives: decoding, printing and re-parsing together. */
module Relay {
  import opened Text
  import opened Buffers
  import opened Fields
  import opened Decoding
  import opened Layout
  import opened StructPB
  import opened Json
  import opened JsonStrings
  import opened Names
  import opened Utf8
  import Float64

  // ---------------------------------------------------------------- the two tables and the parser agree

  predicate Quoted(a: FieldAttrs) {
    a.ctype.Char? || a.ctype.U128? || (a.ctype.U32? && a.ip)
  }

  predicate IsPort(name: string) {
    name == "DPort" || name == "LPort"
  }

  /** The attributes that both the printer's switch and the parser's list of names turn on; the numbers read in network
      byte order are the two ports. */
  predicate Consistent(name: string, a: FieldAttrs) {
    && (Quoted(a) <==> IsString(name))
    && (a.bigEndian && !Quoted(a) <==> IsPort(name)) && (IsPort(name) ==> a.ctype.U16?)
    && name != "Hostname" && name != "Timestamp"
  }

  lemma ConsistentGroupA(name: string)
    requires name in TcpSockFieldsA()
    ensures Consistent(name, TcpSockFieldsA()[name])
  {
  }

  lemma ConsistentGroupB(name: string)
    requires name in TcpSockFieldsB()
    ensures Consistent(name, TcpSockFieldsB()[name])
  {
  }

  lemma ConsistentOthers(name: string)
    requires name in OtherFields()
    ensures Consistent(name, OtherFields()[name])
  {
  }

  function TableOf(v4: bool): Model {
    if v4 then FieldsModel4() else FieldsModel6()
  }

  lemma TablesAreConsistent(v4: bool, name: string)
    requires name in TableOf(v4)
    ensures Consistent(name, TableOf(v4)[name])
  {
    if name in OtherFields() {
      ConsistentOthers(name);
    } else if name in TcpSockFieldsB() {
      ConsistentGroupB(name);
    } else {
      ConsistentGroupA(name);
    }
  }

  // ---------------------------------------------------------------- end to end

  const COMMA_BYTE: Byte := 44

  /** What may reach the printer: a task name without a comma, a number within int64.  Addresses always may. */
  predicate Relayable(s: Slot) {
    match s
    case Int(n) => n <= MAX_INT64
    case Comm(comm) => COMMA_BYTE !in BeforeNul(comm)
    case Addr(_) => true
  }

  lemma CharsHaveComma(b: seq<Byte>)
    ensures ',' in Chars(b) <==> COMMA_BYTE in b
  {
    assert forall i :: 0 <= i < |b| ==> Chars(b)[i] == b[i] as char;
    if COMMA_BYTE in b {
      var i :| 0 <= i < |b| && b[i] == COMMA_BYTE;
      assert Chars(b)[i] == ',';
    }
  }

  lemma DottedDecimalHasNoComma(b: seq<Byte>)
    requires |b| == 4
    ensures ',' !in DottedDecimal(b)
  {
    NoCommaInDigits(b[0]);
    NoCommaInDigits(b[1]);
    NoCommaInDigits(b[2]);
    NoCommaInDigits(b[3]);
  }

  lemma RelayableIsPlain(a: FieldAttrs, s: Slot, ip6: seq<Byte> -> string)
    requires Fits(a, s) && (a.bigEndian && !Quoted(a) ==> a.ctype.U16?)
    requires forall b :: ',' !in ip6(b)
    ensures Plain(Shown(a, s, ip6)) <==> Relayable(s)
    ensures Shown(a, s, ip6).Str? <==> Quoted(a)
  {
    match s
    case Int(n) =>
      assert Pow256(2) == 0x1_0000;
      AsReadMeaning(a, n);
    case Addr(addr) =>
      if |addr| == 4 {
        DottedDecimalHasNoComma(addr);
      }
    case Comm(comm) =>
      CharsHaveComma(BeforeNul(comm));
  }

  /** What the agent should show of a list of fields. */
  function ShownRecord(v4: bool, names: seq<string>, slots: seq<Slot>, ip6: seq<Byte> -> string): (values: seq<Value>)
    requires Known(TableOf(v4), names) && |slots| == |names|
    ensures |values| == |names|
  {
    ShownAll(AttrsOf(TableOf(v4), names), slots, ip6)
  }

  lemma ShownKindsAgree(v4: bool, names: seq<string>, slots: seq<Slot>, ip6: seq<Byte> -> string)
    requires Known(TableOf(v4), names) && AllFit(AttrsOf(TableOf(v4), names), slots)
    requires forall b :: ',' !in ip6(b)
    ensures KindsAgree(names, ShownRecord(v4, names, slots, ip6))
    ensures AllPlain(ShownRecord(v4, names, slots, ip6)) <==> forall i :: 0 <= i < |slots| ==> Relayable(slots[i])
    ensures "Hostname" !in names && "Timestamp" !in names
  {
    var values := ShownRecord(v4, names, slots, ip6);
    forall i | 0 <= i < |names|
      ensures values[i].Str? <==> IsString(names[i])
      ensures Plain(values[i]) <==> Relayable(slots[i])
      ensures names[i] != "Hostname" && names[i] != "Timestamp"
    {
      TablesAreConsistent(v4, names[i]);
      RelayableIsPlain(AttrsOf(TableOf(v4), names)[i], slots[i], ip6);
    }
  }

  lemma {:induction false} DistinctCount(names: seq<string>, keys: set<string>)
    requires Distinct(names) && forall i :: 0 <= i < |names| ==> names[i] in keys
    ensures |names| <= |keys|
  {
    if names != [] {
      DistinctCount(names[1..], keys - {names[0]});
    }
  }

  /** A list of distinct fields is no longer than the table, so the decoder's uint16 cursor never wraps. */
  lemma DistinctListsFit(v4: bool, names: seq<string>)
    requires Known(TableOf(v4), names) && Distinct(names)
    ensures |names| <= 53 && End(AttrsOf(TableOf(v4), names), |names|) < UINT16
  {
    TableSize();
    DistinctCount(names, FieldsModel4().Keys);
    ShortListsFit(AttrsOf(TableOf(v4), names), |names|);
  }

  /** For either address family and every list of distinct fields: whatever the kernel puts into the struct, decoding
      any image of it shows those values, and re-parsing the printed record gives them back by name exactly when no
      task name holds a comma, every number fits int64 and the time prints with ten bytes. */
  lemma EndToEnd(v4: bool, names: seq<string>, slots: seq<Slot>, data: seq<Byte>, ip6: seq<Byte> -> string,
                 hostname: string, now: int)
    requires Known(TableOf(v4), names) && Distinct(names)
    requires LaidOut(AttrsOf(TableOf(v4), names), slots, data)
    requires forall b :: ',' !in ip6(b)
    requires MIN_INT64 <= now <= MAX_INT64
    ensures var values := ShownRecord(v4, names, slots, ip6);
            && DecodeFrom(TableOf(v4), names, data, ip6, 0, 0, []) == Ok(values)
            && (Parse(names, hostname, RecordText(names, values, now)) == Ok(Intended(names, values, hostname, now))
                <==> (forall i :: 0 <= i < |slots| ==> Relayable(slots[i])) && HasPlainTime(now))
  {
    DistinctListsFit(v4, names);
    DecodeInvertsLayout(TableOf(v4), names, slots, data, ip6);
    ShownKindsAgree(v4, names, slots, ip6);
    ParseInvertsPrint(names, ShownRecord(v4, names, slots, ip6), hostname, now);
  }

  /** What `Intended` says by name. */
  lemma {:induction false} IntendedByName(names: seq<string>, values: seq<Value>, hostname: string, now: int, i: nat)
    requires |names| == |values| && i < |names| && Distinct(names)
    requires "Hostname" !in names && "Timestamp" !in names
    ensures names[i] in Intended(names, values, hostname, now)
    ensures Intended(names, values, hostname, now)[names[i]] == AsPb(values[i])
  {
    AsStructByName(names, values, map[], i);
  }

  lemma {:induction false} AsStructByName(names: seq<string>, values: seq<Value>, read: Struct, i: nat)
    requires |names| == |values| && i < |names| && Distinct(names)
    ensures names[i] in AsStruct(names, values, read)
    ensures AsStruct(names, values, read)[names[i]] == AsPb(values[i])
  {
    var next := read[names[0] := AsPb(values[0])];
    if i == 0 {
      OthersAreIntended(names[1..], values[1..], next, names[0]);
    } else {
      AsStructByName(names[1..], values[1..], next, i - 1);
    }
  }

  /** One record through the agent's decoder and the positional parser, on the actual objects. */
  method RelayRecord(decoder: Decoder, parser: Parser, names: seq<string>, ghost slots: seq<Slot>, data: seq<Byte>,
                     buf: Buffer, now: int)
    returns (failed: Option<Failure>, r: Result<Struct>)
    requires parser.Valid() && parser.fieldsName == names && buf.unread == ""
    requires Known(TableOf(decoder.v4), names) && Distinct(names)
    requires LaidOut(AttrsOf(TableOf(decoder.v4), names), slots, data)
    requires forall b :: ',' !in decoder.ip6(b)
    requires MIN_INT64 <= now <= MAX_INT64
    modifies decoder, buf
    ensures failed == None
    ensures r == Ok(Intended(names, ShownRecord(decoder.v4, names, slots, decoder.ip6), parser.hostname, now))
       <==> (forall i :: 0 <= i < |slots| ==> Relayable(slots[i])) && HasPlainTime(now)
  {
    EndToEnd(decoder.v4, names, slots, data, decoder.ip6, parser.hostname, now);
    failed := decoder.Decode(data, names, buf, now);
    ghost var text := RecordText(names, ShownRecord(decoder.v4, names, slots, decoder.ip6), now);
    assert "" + text == text;
    r := parser.Unmarshal(buf);
  }

  // ---------------------------------------------------------------- two readers, one record

  function AsField(v: JsonValue): PbValue {
    match v
    case JString(s) => StringValue(s)
    case JNumber(n) => NumberValue(Float64.Float64(n))
  }

  /** encoding/json into a map: a later member wins, numbers become float64. */
  function JsonMap(o: Object, read: Struct): Struct {
    if o == [] then read else JsonMap(o[1..], read[o[0].0 := AsField(o[0].1)])
  }

  lemma {:induction false} JsonMapOfRecord(names: seq<string>, values: seq<Value>, more: Object, read: Struct)
    requires |names| == |values|
    ensures JsonMap(AsObject(names, values) + more, read) == JsonMap(more, AsStruct(names, values, read))
  {
    if names == [] {
      assert AsObject(names, values) + more == more;
    } else {
      var first := (names[0], AsJson(values[0]));
      var others := AsObject(names[1..], values[1..]) + more;
      ConcatAssoc([first], AsObject(names[1..], values[1..]), more);
      assert ([first] + others)[1..] == others;
      JsonMapOfRecord(names[1..], values[1..], more, read[names[0] := AsPb(values[0])]);
    }
  }

  lemma NamesAreClean(name: string)
    requires name in FieldsModel4()
    ensures Clean(name) && StartsKey("\"" + name)
  {
    NamesAreWords(name);
    AsciiIsWellFormed(name);
  }

  /** proto.Marshal refuses a struct with a string that is not UTF-8; otherwise the server gets the same map. */
  function Marshalled(m: Struct): Option<Struct> {
    if forall k :: k in m && m[k].StringValue? ==> WellFormed(m[k].s) then Some(m) else None
  }

  /** What kafka's two serialisations of a record bring to the server: the JSON that encoding/json reads into a map,
      and the struct message. */
  function ViaJson(names: seq<string>, values: seq<Value>, hostname: string, now: int): Option<Struct>
    requires |names| == |values|
  {
    var text := RecordText(names, values, now);
    if text == [] then None
    else
      match ReadObject(true, WithTail(text, JsonTail(hostname)))
      case None => None
      case Some(o) => Some(JsonMap(o, map[]))
  }

  function ViaStruct(names: seq<string>, values: seq<Value>, hostname: string, now: int): Option<Struct>
    requires |names| == |values|
  {
    match Parse(names, hostname, RecordText(names, values, now))
    case Err(_) => None
    case Ok(m) => Marshalled(m)
  }

  lemma IntendedIsMarshalled(names: seq<string>, values: seq<Value>, hostname: string, now: int)
    requires |names| == |values| && Distinct(names) && "Hostname" !in names && "Timestamp" !in names
    requires AllUtf8(values) && WellFormed(hostname)
    ensures Marshalled(Intended(names, values, hostname, now)) == Some(Intended(names, values, hostname, now))
  {
    var m := Intended(names, values, hostname, now);
    forall k | k in m && m[k].StringValue?
      ensures WellFormed(m[k].s)
    {
      if k != "Hostname" {
        KeysOfStruct(names, values, map[]);
        var i :| 0 <= i < |names| && names[i] == k;
        AsStructByName(names, values, map[], i);
      }
    }
  }

  lemma {:induction false} KeysOfStruct(names: seq<string>, values: seq<Value>, read: Struct)
    requires |names| == |values|
    ensures forall k :: k in AsStruct(names, values, read) <==> k in read || k in names
  {
    if names != [] {
      KeysOfStruct(names[1..], values[1..], read[names[0] := AsPb(values[0])]);
      assert forall k :: k in names <==> k == names[0] || k in names[1..];
    }
  }

  lemma TableNamesAreClean(v4: bool, names: seq<string>)
    requires Known(TableOf(v4), names)
    ensures CleanNames(names) && "Hostname" !in names && "Timestamp" !in names
    ensures forall i :: 0 <= i < |names| ==> StartsKey("\"" + names[i])
  {
    forall i | 0 <= i < |names|
      ensures Clean(names[i]) && StartsKey("\"" + names[i]) && names[i] != "Hostname" && names[i] != "Timestamp"
    {
      assert names[i] in FieldsModel4();
      NamesAreClean(names[i]);
      TablesAreConsistent(v4, names[i]);
    }
  }

  lemma JsonBringsIntended(names: seq<string>, values: seq<Value>, hostname: string, now: int)
    requires |names| == |values| && CleanNames(names) && AllClean(values) && Clean(hostname)
    ensures ViaJson(names, values, hostname, now) == Some(Intended(names, values, hostname, now))
  {
    HostnameIsAMember(true, names, values, now, hostname);
    var more := [("Timestamp", JNumber(now)), ("Hostname", JString(hostname))];
    JsonMapOfRecord(names, values, more, map[]);
    OriginIsTwoMembers(AsStruct(names, values, map[]), hostname, now);
  }

  lemma {:induction false} JsonMapKeeps(o: Object, read: Struct, k: string)
    requires k in read && forall i :: 0 <= i < |o| ==> o[i].0 != k
    ensures k in JsonMap(o, read) && JsonMap(o, read)[k] == read[k]
  {
    if o != [] {
      JsonMapKeeps(o[1..], read[o[0].0 := AsField(o[0].1)], k);
    }
  }

  lemma {:induction false} JsonMapHolds(o: Object, read: Struct, i: nat)
    requires i < |o| && forall j :: i < j < |o| ==> o[j].0 != o[i].0
    ensures o[i].0 in JsonMap(o, read) && JsonMap(o, read)[o[i].0] == AsField(o[i].1)
  {
    var next := read[o[0].0 := AsField(o[0].1)];
    if i == 0 {
      forall j | 0 <= j < |o| - 1
        ensures o[1..][j].0 != o[0].0
      {
        assert o[1..][j] == o[j + 1];
      }
      JsonMapKeeps(o[1..], next, o[0].0);
    } else {
      assert o[1..][i - 1] == o[i];
      JsonMapHolds(o[1..], next, i - 1);
    }
  }

  lemma AlikeNames(names: seq<string>, values: seq<Value>, o: Object, more: Object, i: nat)
    requires |names| == |values| && Distinct(names) && i < |names|
    requires |o| >= |names| && AllAlike(names, values, o[..|names|]) && o[|names|..] == more
    requires forall k :: 0 <= k < |more| ==> more[k].0 != names[i]
    ensures Alike(names[i], values[i], o[i]) && forall j :: i < j < |o| ==> o[j].0 != o[i].0
  {
    assert Alike(names[i], values[i], o[..|names|][i]);
    forall j | i < j < |o|
      ensures o[j].0 != names[i]
    {
      if j < |names| {
        assert Alike(names[j], values[j], o[..|names|][j]);
      } else {
        assert o[j] == more[j - |names|];
      }
    }
  }

  lemma AlikeIsOther(names: seq<string>, values: seq<Value>, o: Object, more: Object, hostname: string, now: int)
    requires |names| == |values| && Distinct(names) && "Hostname" !in names && "Timestamp" !in names
    requires !AllClean(values)
    requires |more| == 2 && more[0].0 == "Timestamp" && more[1].0 == "Hostname"
    requires |o| >= |names| && AllAlike(names, values, o[..|names|]) && o[|names|..] == more
    ensures JsonMap(o, map[]) != Intended(names, values, hostname, now)
  {
    var i :| 0 <= i < |values| && !CleanValue(values[i]);
    AlikeNames(names, values, o, more, i);
    JsonMapHolds(o, map[], i);
    IntendedByName(names, values, hostname, now, i);
  }

  lemma ViaJsonReads(names: seq<string>, values: seq<Value>, hostname: string, now: int)
    requires |names| == |values|
    ensures ViaJson(names, values, hostname, now)
         == match ReadMembers(true, Members(names, values) + Origin(hostname, now))
            case None => None
            case Some(o) => Some(JsonMap(o, map[]))
  {
    var body := Members(names, values) + Origin(hostname, now);
    WithTailOfRecord(names, values, now, hostname);
    assert ("{" + body)[1..] == body;
    assert |body| >= 12;
  }

  lemma JsonBringsOther(v4: bool, names: seq<string>, values: seq<Value>, hostname: string, now: int)
    requires Known(TableOf(v4), names) && |names| == |values| && Distinct(names)
    requires CommaFreeStrings(values) && !AllClean(values) && Clean(hostname)
    ensures ViaJson(names, values, hostname, now) != Some(Intended(names, values, hostname, now))
  {
    var more := [("Timestamp", JNumber(now)), ("Hostname", JString(hostname))];
    TableNamesAreClean(v4, names);
    ViaJsonReads(names, values, hostname, now);
    ReadOrigin(true, now, hostname);
    OriginStartsKey(hostname, now);
    ReadAnyMembers(true, names, values, Origin(hostname, now), more);
    var r := ReadMembers(true, Members(names, values) + Origin(hostname, now));
    if r.Some? {
      AlikeIsOther(names, values, r.value, more, hostname, now);
    }
  }

  lemma IllFormedIsRefused(names: seq<string>, values: seq<Value>, hostname: string, now: int, i: nat)
    requires |names| == |values| && Distinct(names) && "Hostname" !in names && "Timestamp" !in names
    requires i < |values| && values[i].Str? && !WellFormed(values[i].s)
    ensures Marshalled(Intended(names, values, hostname, now)) == None
  {
    IntendedByName(names, values, hostname, now, i);
  }

  predicate AllUtf8(values: seq<Value>) {
    forall i :: 0 <= i < |values| ==> values[i].Str? ==> WellFormed(values[i].s)
  }

  /** A plain record, sent by kafka: as JSON it reaches the server as the intended map exactly when every string is
      UTF-8 and none needs an escape; as a struct message exactly when every string is UTF-8, and else not at all. */
  lemma TwoReadersAgree(v4: bool, names: seq<string>, values: seq<Value>, hostname: string, now: int)
    requires Known(TableOf(v4), names) && KindsAgree(names, values) && Distinct(names)
    requires AllPlain(values) && HasPlainTime(now) && Clean(hostname)
    requires MIN_INT64 <= now <= MAX_INT64
    ensures var intended := Intended(names, values, hostname, now);
            && (ViaJson(names, values, hostname, now) == Some(intended) <==> AllClean(values))
            && ViaStruct(names, values, hostname, now) == if AllUtf8(values) then Some(intended) else None
  {
    TableNamesAreClean(v4, names);
    ParseInvertsPrint(names, values, hostname, now);
    if AllClean(values) {
      JsonBringsIntended(names, values, hostname, now);
    } else {
      JsonBringsOther(v4, names, values, hostname, now);
    }
    if AllUtf8(values) {
      IntendedIsMarshalled(names, values, hostname, now);
    } else {
      var i :| 0 <= i < |values| && values[i].Str? && !WellFormed(values[i].s);
      IllFormedIsRefused(names, values, hostname, now, i);
    }
  }

  /** A task's name that the kernel cut within a character of several bytes is plain for the positional parser, yet
      neither serialisation brings it to the server. */
  lemma CutTaskName(cut: string, hostname: string, now: int)
    requires |cut| == 15 && cut[14] as nat == 0xC3 && ',' !in cut
    requires HasPlainTime(now) && Clean(hostname) && MIN_INT64 <= now <= MAX_INT64
    ensures var names, values := ["Task"], [Str(cut)];
            && Parse(names, hostname, RecordText(names, values, now)) == Ok(Intended(names, values, hostname, now))
            && ViaJson(names, values, hostname, now) != Some(Intended(names, values, hostname, now))
            && ViaStruct(names, values, hostname, now) == None
  {
    var names, values := ["Task"], [Str(cut)];
    CutIsIllFormed(cut);
    assert values[0] == Str(cut) && !CleanValue(values[0]);
    TaskIsKnown();
    assert KindsAgree(names, values) && AllPlain(values) && Distinct(names);
    ParseInvertsPrint(names, values, hostname, now);
    TwoReadersAgree(true, names, values, hostname, now);
  }

  lemma TaskIsKnown()
    ensures Known(TableOf(true), ["Task"]) && "Task" != "Hostname" && "Task" != "Timestamp"
  {
    assert "Task" in OtherFields();
    assert |"Task"| != |"Hostname"| && |"Task"| != |"Timestamp"|;
  }

  lemma OriginIsTwoMembers(read: Struct, hostname: string, now: int)
    ensures JsonMap([("Timestamp", JNumber(now)), ("Hostname", JString(hostname))], read)
         == WithOrigin(read, hostname, now)
  {
    var o := [("Timestamp", JNumber(now)), ("Hostname", JString(hostname))];
    assert o[1..] == [("Hostname", JString(hostname))];
    var h, t := StringValue(hostname), NumberValue(Float64.Float64(now));
    assert JsonMap(o[1..], read["Timestamp" := t]) == read["Timestamp" := t]["Hostname" := h];
    assert "Timestamp" != "Hostname" by {
      assert |"Timestamp"| != |"Hostname"|;
    }
    assert read["Timestamp" := t]["Hostname" := h] == read["Hostname" := h]["Timestamp" := t];
  }
}
