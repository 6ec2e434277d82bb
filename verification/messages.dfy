/** The plain message (proto/tcpdog.proto: Fields): protojson reads the printed record into it, in kafka's and in the
    gRPC egress's workers (egress/kafka/kafka.go: workerPB; egress/grpc/grpc.go: protobuf), and its error is dropped. */
module Messages {
  import opened Text
  import opened Fields
  import opened Decoding
  import opened StructPB
  import opened Layout
  import opened Json
  import opened JsonStrings
  import opened Utf8
  import opened Relay
  import opened Rows
  import Float64

  // ---------------------------------------------------------------- protojson

  /** What a field of a kind takes from JSON; anything else is an error. */
  function Taken(kind: Kind, v: JsonValue): Option<Val> {
    match (kind, v)
    case (Uint32, JNumber(n)) => if 0 <= n < POW32 then Some(Number(n)) else None
    case (Uint64, JNumber(n)) => if 0 <= n < POW64 then Some(Number(n)) else None
    case (String, JString(s)) => Some(Characters(s))
    case _ => None
  }

  predicate Accepted(schema: Schema, m: Message, name: string, v: JsonValue) {
    name in schema && name !in m && Taken(schema[name], v).Some?
  }

  /** Member by member: a text that is no member, an unknown or repeated name or a value that does not fit ends the
      reading, and what has been set by then stays. */
  function ReadFields(schema: Schema, s: string, m: Message): (r: Message)
    ensures forall k :: k in m ==> k in r && r[k] == m[k]
    decreases |s|
  {
    match ReadMember(false, s)
    case None => m
    case Some(((name, v), rest)) =>
      if !Accepted(schema, m, name, v) then m
      else
        var more := m[name := Taken(schema[name], v).value];
        if rest == "" || rest[0] != ',' then more else ReadFields(schema, rest[1..], more)
  }

  /** proto.Marshal refuses a message with a string that is not UTF-8. */
  function Sent(m: Message): Option<Message> {
    if forall k :: k in m && m[k].Characters? ==> WellFormed(m[k].s) then Some(m) else None
  }

  /** What arrives at the server for a record printed: the fields read, and the host name. */
  function ViaPlain(schema: Schema, names: seq<string>, values: seq<Value>, hostname: string, now: int): Option<Message>
    requires |names| == |values|
  {
    var text := RecordText(names, values, now);
    var m := if text == "" || text[0] != '{' then map[] else ReadFields(schema, text[1..], map[]);
    Sent(m["Hostname" := Characters(hostname)])
  }

  // ---------------------------------------------------------------- the message that should arrive

  function AsVal(v: Value): Val {
    match v
    case Num(n) => Number(n)
    case Str(s) => Characters(s)
  }

  function AsMessage(names: seq<string>, values: seq<Value>, m: Message): Message
    requires |names| == |values|
  {
    if names == [] then m else AsMessage(names[1..], values[1..], m[names[0] := AsVal(values[0])])
  }

  function IntendedMessage(names: seq<string>, values: seq<Value>, hostname: string, now: nat): Message
    requires |names| == |values|
  {
    AsMessage(names, values, map[])["Timestamp" := Number(now)]["Hostname" := Characters(hostname)]
  }

  /** The message has a field for the value. */
  predicate HasField(schema: Schema, name: string, v: Value) {
    name in schema && Taken(schema[name], AsJson(v)).Some?
  }

  predicate HasFields(schema: Schema, names: seq<string>, values: seq<Value>)
    requires |names| == |values|
  {
    forall i :: 0 <= i < |names| ==> HasField(schema, names[i], values[i])
  }

  lemma {:induction false} MessageKeeps(names: seq<string>, values: seq<Value>, m: Message, k: string)
    requires |names| == |values| && k in m && k !in names
    ensures k in AsMessage(names, values, m) && AsMessage(names, values, m)[k] == m[k]
  {
    if names != [] {
      MessageKeeps(names[1..], values[1..], m[names[0] := AsVal(values[0])], k);
    }
  }

  lemma {:induction false} MessageByName(names: seq<string>, values: seq<Value>, m: Message, i: nat)
    requires |names| == |values| && i < |names| && Distinct(names)
    ensures names[i] in AsMessage(names, values, m) && AsMessage(names, values, m)[names[i]] == AsVal(values[i])
  {
    var next := m[names[0] := AsVal(values[0])];
    if i == 0 {
      MessageKeeps(names[1..], values[1..], next, names[0]);
    } else {
      MessageByName(names[1..], values[1..], next, i - 1);
    }
  }

  lemma {:induction false} KeysOfMessage(names: seq<string>, values: seq<Value>, m: Message)
    requires |names| == |values|
    ensures forall k :: k in AsMessage(names, values, m) <==> k in m || k in names
  {
    if names != [] {
      KeysOfMessage(names[1..], values[1..], m[names[0] := AsVal(values[0])]);
      assert forall k :: k in names <==> k == names[0] || k in names[1..];
    }
  }

  // ---------------------------------------------------------------- reading what was printed

  /** A message that is wrong: it has no time, or something else for a value. */
  ghost predicate Spoilt(names: seq<string>, values: seq<Value>, r: Message)
    requires |names| == |values|
  {
    "Timestamp" !in r || exists i :: 0 <= i < |names| && names[i] in r && r[names[i]] != AsVal(values[i])
  }

  lemma SpoiltRest(names: seq<string>, values: seq<Value>, r: Message)
    requires |names| == |values| && names != [] && Spoilt(names[1..], values[1..], r)
    ensures Spoilt(names, values, r)
  {
    if "Timestamp" in r {
      var i :| 0 <= i < |names[1..]| && names[1..][i] in r && r[names[1..][i]] != AsVal(values[1..][i]);
      assert names[i + 1] == names[1..][i] && values[i + 1] == values[1..][i];
    }
  }

  lemma ReadOnFields(schema: Schema, s: string, name: string, v: JsonValue, next: string, m: Message)
    requires ReadMember(false, s) == Some(((name, v), "," + next)) && Accepted(schema, m, name, v)
    ensures ReadFields(schema, s, m) == ReadFields(schema, next, m[name := Taken(schema[name], v).value])
  {
    assert ("," + next)[0] == ',' && ("," + next)[1..] == next;
  }

  /** A first member that is unclean, or has no field, spoils the message. */
  lemma FirstSpoils(schema: Schema, names: seq<string>, values: seq<Value>, s: string, m: Message)
    requires |names| == |values| && names != [] && "Timestamp" !in m
    requires var r := ReadMember(false, s);
             r.Some? ==> r.value.0.0 == names[0] && (r.value.0.1 == AsJson(values[0]) <==> CleanValue(values[0]))
    requires !CleanValue(values[0]) || !HasField(schema, names[0], values[0])
    ensures Spoilt(names, values, ReadFields(schema, s, m))
  {
    var r := ReadMember(false, s);
    if r.Some? && Accepted(schema, m, names[0], r.value.0.1) {
      var all := ReadFields(schema, s, m);
      assert names[0] in all && all[names[0]] == Taken(schema[names[0]], r.value.0.1).value;
      OtherValue(schema[names[0]], r.value.0.1, values[0]);
    }
  }

  /** Another JSON value is another field value. */
  lemma OtherValue(kind: Kind, v: JsonValue, w: Value)
    requires Taken(kind, v).Some? && v != AsJson(w)
    ensures Taken(kind, v).value != AsVal(w)
  {
  }

  lemma FirstMember(names: seq<string>, values: seq<Value>, rest: string)
    requires |names| == |values| && names != [] && Clean(names[0])
    ensures var r, v := ReadMember(false, Members(names, values) + rest), values[0];
            if CleanValue(v) then r == Some(((names[0], AsJson(v)), "," + (Members(names[1..], values[1..]) + rest)))
            else r.Some? ==> r.value.0.0 == names[0] && r.value.0.1 != AsJson(v)
  {
    PrintedMembersFollow(names, values, rest);
    ReadPrintedMember(false, names[0], values[0], "," + (Members(names[1..], values[1..]) + rest));
  }

  lemma CleanFirst(schema: Schema, names: seq<string>, values: seq<Value>, rest: string, m: Message)
    requires |names| == |values| && names != [] && Clean(names[0]) && names[0] !in m
    requires CleanValue(values[0]) && HasField(schema, names[0], values[0])
    ensures ReadFields(schema, Members(names, values) + rest, m)
         == ReadFields(schema, Members(names[1..], values[1..]) + rest, m[names[0] := AsVal(values[0])])
  {
    FirstMember(names, values, rest);
    ReadOnFields(schema, Members(names, values) + rest, names[0], AsJson(values[0]),
                 Members(names[1..], values[1..]) + rest, m);
  }

  lemma UncleanFirst(schema: Schema, names: seq<string>, values: seq<Value>, rest: string, m: Message)
    requires |names| == |values| && names != [] && Clean(names[0]) && "Timestamp" !in m
    requires !CleanValue(values[0]) || !HasField(schema, names[0], values[0])
    ensures Spoilt(names, values, ReadFields(schema, Members(names, values) + rest, m))
  {
    FirstMember(names, values, rest);
    FirstSpoils(schema, names, values, Members(names, values) + rest, m);
  }

  predicate NoneSet(names: seq<string>, m: Message) {
    forall i :: 0 <= i < |names| ==> names[i] !in m
  }

  /** The printed members are all set and reading goes on after them, if every string is clean and every value has a
      field; if not, the message is wrong. */
  lemma {:induction false} ReadPrintedFields(schema: Schema, names: seq<string>, values: seq<Value>, rest: string,
                                             m: Message)
    requires |names| == |values| && CleanNames(names) && Distinct(names) && NoneSet(names, m)
    requires "Timestamp" !in names && "Timestamp" !in m
    ensures var r := ReadFields(schema, Members(names, values) + rest, m);
            if AllClean(values) && HasFields(schema, names, values)
            then r == ReadFields(schema, rest, AsMessage(names, values, m))
            else Spoilt(names, values, r)
  {
    if names == [] {
      assert Members(names, values) + rest == rest;
    } else {
      AllCleanRest(values);
      HasFieldsRest(schema, names, values);
      if CleanValue(values[0]) && HasField(schema, names[0], values[0]) {
        var next := m[names[0] := AsVal(values[0])];
        CleanFirst(schema, names, values, rest, m);
        NoneSetNext(names, m, AsVal(values[0]));
        ReadPrintedFields(schema, names[1..], values[1..], rest, next);
        if !AllClean(values) || !HasFields(schema, names, values) {
          SpoiltRest(names, values, ReadFields(schema, Members(names, values) + rest, m));
        }
      } else {
        UncleanFirst(schema, names, values, rest, m);
      }
    }
  }

  lemma NoneSetNext(names: seq<string>, m: Message, v: Val)
    requires names != [] && Distinct(names) && NoneSet(names, m)
    ensures NoneSet(names[1..], m[names[0] := v])
  {
  }

  lemma HasFieldsRest(schema: Schema, names: seq<string>, values: seq<Value>)
    requires |names| == |values| && names != []
    ensures HasFields(schema, names, values)
       <==> HasField(schema, names[0], values[0]) && HasFields(schema, names[1..], values[1..])
  {
    forall i | 0 <= i < |names| - 1
      ensures HasField(schema, names[1..][i], values[1..][i]) == HasField(schema, names[i + 1], values[i + 1])
    {
    }
    if HasField(schema, names[0], values[0]) && HasFields(schema, names[1..], values[1..]) {
      forall i | 0 <= i < |names|
        ensures HasField(schema, names[i], values[i])
      {
        assert i > 0 ==> names[i] == names[1..][i - 1] && values[i] == values[1..][i - 1];
      }
    }
  }

  lemma ReadTimeField(schema: Schema, now: int, m: Message)
    requires "Timestamp" in schema && schema["Timestamp"].Uint64? && "Timestamp" !in m
    ensures ReadFields(schema, TimeText(now), m) == if 0 <= now < POW64 then m["Timestamp" := Number(now)] else m
  {
    ReadTimeMember(false, now, "}");
  }

  /** What is read of a record. */
  lemma RecordFields(schema: Schema, names: seq<string>, values: seq<Value>, hostname: string, now: int)
    requires |names| == |values|
    ensures ViaPlain(schema, names, values, hostname, now)
         == Sent(ReadFields(schema, Members(names, values) + TimeText(now), map[])["Hostname" := Characters(hostname)])
  {
    RecordBody(names, values, now);
  }

  lemma SpoiltIsOther(names: seq<string>, values: seq<Value>, r: Message, hostname: string, now: nat)
    requires |names| == |values| && Distinct(names) && "Hostname" !in names && "Timestamp" !in names
    requires Spoilt(names, values, r)
    ensures r["Hostname" := Characters(hostname)] != IntendedMessage(names, values, hostname, now)
  {
    var m := IntendedMessage(names, values, hostname, now);
    assert |"Timestamp"| != |"Hostname"|;
    assert "Timestamp" in m;
    if "Timestamp" in r {
      var i :| 0 <= i < |names| && names[i] in r && r[names[i]] != AsVal(values[i]);
      MessageByName(names, values, map[], i);
      assert m[names[i]] == AsVal(values[i]);
    }
  }

  lemma IntendedIsSent(names: seq<string>, values: seq<Value>, hostname: string, now: nat)
    requires |names| == |values| && Distinct(names) && "Hostname" !in names && "Timestamp" !in names
    requires AllClean(values)
    ensures var m := IntendedMessage(names, values, hostname, now);
            Sent(m) == if WellFormed(hostname) then Some(m) else None
  {
    var m := IntendedMessage(names, values, hostname, now);
    assert m["Hostname"] == Characters(hostname);
    forall k | k in m && m[k].Characters? && k != "Hostname"
      ensures WellFormed(m[k].s)
    {
      KeysOfMessage(names, values, map[]);
      var i :| 0 <= i < |names| && names[i] == k;
      MessageByName(names, values, map[], i);
      assert CleanValue(values[i]);
    }
  }

  lemma UnknownStops(schema: Schema, names: seq<string>, values: seq<Value>, rest: string, m: Message)
    requires |names| == |values| && names != [] && Clean(names[0]) && names[0] !in schema
    ensures ReadFields(schema, Members(names, values) + rest, m) == m
  {
    FirstMember(names, values, rest);
  }

  /** A field that the message does not have ends the reading: all that is printed after it is lost, the time too. */
  lemma UnknownFieldCuts(schema: Schema, names: seq<string>, values: seq<Value>, more: seq<string>,
                         others: seq<Value>, hostname: string, now: int)
    requires |names| == |values| && |more| == |others| && more != [] && more[0] !in schema
    requires CleanNames(names) && Clean(more[0]) && Distinct(names) && "Timestamp" !in names
    requires AllClean(values) && HasFields(schema, names, values)
    ensures ViaPlain(schema, names + more, values + others, hostname, now)
         == Sent(AsMessage(names, values, map[])["Hostname" := Characters(hostname)])
  {
    var rest := Members(more, others) + TimeText(now);
    RecordFields(schema, names + more, values + others, hostname, now);
    MembersConcat(names, values, more, others);
    ConcatAssoc(Members(names, values), Members(more, others), TimeText(now));
    ReadPrintedFields(schema, names, values, rest, map[]);
    UnknownStops(schema, more, others, TimeText(now), AsMessage(names, values, map[]));
  }

  /** For any message type with a 64-bit time: the message that arrives for a printed record is the intended one if and
      only if every string is UTF-8 without escapes, the host name is UTF-8, and the message has a field for every
      value. */
  lemma PlainBringsIntended(schema: Schema, names: seq<string>, values: seq<Value>, hostname: string, now: int)
    requires "Timestamp" in schema && schema["Timestamp"].Uint64?
    requires |names| == |values| && CleanNames(names) && Distinct(names)
    requires "Hostname" !in names && "Timestamp" !in names && 0 <= now < POW64
    ensures ViaPlain(schema, names, values, hostname, now) == Some(IntendedMessage(names, values, hostname, now))
       <==> AllClean(values) && HasFields(schema, names, values) && WellFormed(hostname)
  {
    var r := ReadFields(schema, Members(names, values) + TimeText(now), map[]);
    RecordFields(schema, names, values, hostname, now);
    ReadPrintedFields(schema, names, values, TimeText(now), map[]);
    if AllClean(values) && HasFields(schema, names, values) {
      KeysOfMessage(names, values, map[]);
      ReadTimeField(schema, now, AsMessage(names, values, map[]));
      IntendedIsSent(names, values, hostname, now);
    } else {
      SpoiltIsOther(names, values, r, hostname, now);
    }
  }

  // ---------------------------------------------------------------- the message type of the program

  function Uint32FieldsA(): seq<string> {
    [
      "PID", "TCPHeaderLen", "TotalRetrans", "DPort", "LPort", "NumSAcks", "UserMSS", "MSSClamp", "AdvMSS",
      "RTT", "SRTT", "RTTVar", "RcvRTT", "RACKRTT", "MDev", "MDevMax", "SegsIn", "SegsOut", "GSOSegs",
      "DataSegsIn", "MaxWindow", "SndWnd"
    ]
  }

  function Uint32FieldsB(): seq<string> {
    [
      "WindowClamp", "RcvSSThresh", "ECNFlags", "SndCwnd", "PrrOut", "Delivered", "DeliveredCe", "Lost",
      "LostOut", "PriorSSThresh", "DataSegsOut", "RcvSpace", "UnAcked", "SAcked", "RTO", "DsackDups",
      "RateDelivered", "RateInterval", "SndSSThresh", "PacketsOut", "RetransOut", "MaxPacketsOut", "MaxPacketsSeq"
    ]
  }

  function Uint64Fields(): seq<string> {
    ["BytesReceived", "BytesSent", "BytesAcked", "Timestamp"]
  }

  function StringFields(): seq<string> {
    [
      "Task", "SAddr", "DAddr", "GeoLocation", "CCode", "CSCode", "Country", "City", "Region", "ASN", "ASNOrg",
      "Hostname"
    ]
  }

  function MessageFields(): seq<string> {
    Uint32FieldsA() + Uint32FieldsB() + Uint64Fields() + StringFields()
  }

  function KindOf(name: string): Kind {
    if name in StringFields() then String else if name in Uint64Fields() then Uint64 else Uint32
  }

  /** The fields of the message and their types. */
  function MessageSchema(): Schema {
    map name | name in MessageFields() :: KindOf(name)
  }

  predicate IsState(name: string) {
    name == "NewState" || name == "OldState"
  }

  /** A field of the table has the type its members need; two fields are not in the message. */
  predicate Suits(name: string, a: FieldAttrs) {
    && (name in MessageFields() <==> !IsState(name))
    && (KindOf(name).String? <==> Quoted(a)) && (KindOf(name).Uint32? ==> Size(a) <= 4 || Quoted(a))
  }

  lemma ListedA(name: string)
    requires name in TcpSockFieldsA()
    ensures name in MessageFields()
  {
  }

  lemma NoTextA(name: string)
    requires name in TcpSockFieldsA()
    ensures name !in StringFields() && !Quoted(TcpSockFieldsA()[name])
  {
  }

  lemma NoStateA(name: string)
    requires name in TcpSockFieldsA()
    ensures !IsState(name)
    ensures Size(TcpSockFieldsA()[name]) <= 4 || name in Uint64Fields()
  {
  }

  lemma SuitsA(name: string)
    requires name in TcpSockFieldsA()
    ensures Suits(name, TcpSockFieldsA()[name])
  {
    ListedA(name);
    NoTextA(name);
    NoStateA(name);
  }

  lemma ListedB(name: string)
    requires name in TcpSockFieldsB()
    ensures name in MessageFields()
  {
  }

  lemma NoTextB(name: string)
    requires name in TcpSockFieldsB()
    ensures name !in StringFields() && !Quoted(TcpSockFieldsB()[name])
  {
  }

  lemma NoStateB(name: string)
    requires name in TcpSockFieldsB()
    ensures !IsState(name)
    ensures Size(TcpSockFieldsB()[name]) <= 4 || name in Uint64Fields()
  {
  }

  lemma SuitsB(name: string)
    requires name in TcpSockFieldsB()
    ensures Suits(name, TcpSockFieldsB()[name])
  {
    ListedB(name);
    NoTextB(name);
    NoStateB(name);
  }

  lemma ListedOther(name: string)
    requires name in OtherFields() && !IsState(name)
    ensures name in MessageFields()
  {
  }

  lemma StatesAreNotListed(name: string)
    requires IsState(name)
    ensures name !in Uint32FieldsA() && name !in Uint32FieldsB() && name !in Uint64Fields() && name !in StringFields()
  {
  }

  lemma TextOther(name: string)
    requires name in OtherFields()
    ensures name in StringFields() <==> Quoted(OtherFields()[name])
    ensures Size(OtherFields()[name]) <= 4 || Quoted(OtherFields()[name])
  {
  }

  lemma SuitsOther(name: string)
    requires name in OtherFields()
    ensures Suits(name, OtherFields()[name])
  {
    TextOther(name);
    if IsState(name) {
      StatesAreNotListed(name);
    } else {
      ListedOther(name);
    }
  }

  lemma TableSuits(v4: bool, name: string)
    requires name in TableOf(v4)
    ensures Suits(name, TableOf(v4)[name])
  {
    if name in OtherFields() {
      SuitsOther(name);
    } else if name in TcpSockFieldsB() {
      SuitsB(name);
    } else {
      SuitsA(name);
    }
  }

  // ---------------------------------------------------------------- records of the program

  /** What the decoder can show of a member. */
  predicate InRange(a: FieldAttrs, v: Value) {
    (v.Str? <==> Quoted(a)) && (v.Num? ==> v.n < Pow256(Size(a)))
  }

  ghost predicate AllInRange(v4: bool, names: seq<string>, values: seq<Value>)
    requires Known(TableOf(v4), names)
  {
    |values| == |names| && forall i :: 0 <= i < |names| ==> InRange(TableOf(v4)[names[i]], values[i])
  }

  lemma RangeFits(name: string, a: FieldAttrs, v: Value)
    requires Suits(name, a) && InRange(a, v)
    ensures HasField(MessageSchema(), name, v) <==> !IsState(name)
  {
    assert Pow256(1) == 0x100 && Pow256(2) == 0x1_0000 && Pow256(4) == POW32 && Pow256(8) == POW64;
    assert MessageSchema().Keys == set k | k in MessageFields();
  }

  predicate NoState(names: seq<string>) {
    forall i :: 0 <= i < |names| ==> !IsState(names[i])
  }

  lemma RecordHasFields(v4: bool, names: seq<string>, values: seq<Value>)
    requires Known(TableOf(v4), names) && AllInRange(v4, names, values)
    ensures HasFields(MessageSchema(), names, values) <==> NoState(names)
  {
    forall i | 0 <= i < |names|
      ensures HasField(MessageSchema(), names[i], values[i]) <==> !IsState(names[i])
    {
      TableSuits(v4, names[i]);
      RangeFits(names[i], TableOf(v4)[names[i]], values[i]);
    }
  }

  lemma SlotIsInRange(a: FieldAttrs, slot: Slot, ip6: seq<Byte> -> string)
    requires Fits(a, slot) && (a.bigEndian && !Quoted(a) ==> a.ctype.U16?)
    ensures InRange(a, Shown(a, slot, ip6))
  {
    if slot.Int? {
      assert Pow256(2) == 0x1_0000;
      AsReadMeaning(a, slot.n);
    }
  }

  /** Whatever the struct's members hold, what the decoder shows is in range. */
  lemma ShownIsInRange(v4: bool, names: seq<string>, slots: seq<Slot>, ip6: seq<Byte> -> string)
    requires Known(TableOf(v4), names) && AllFit(AttrsOf(TableOf(v4), names), slots)
    ensures AllInRange(v4, names, ShownRecord(v4, names, slots, ip6))
  {
    forall i | 0 <= i < |names|
      ensures InRange(TableOf(v4)[names[i]], ShownRecord(v4, names, slots, ip6)[i])
    {
      TablesAreConsistent(v4, names[i]);
      SlotIsInRange(AttrsOf(TableOf(v4), names)[i], slots[i], ip6);
    }
  }

  lemma SchemaHasTime()
    ensures "Timestamp" in MessageSchema() && MessageSchema()["Timestamp"].Uint64?
    ensures "Hostname" in MessageSchema() && MessageSchema()["Hostname"].String?
  {
    assert "Timestamp" in Uint64Fields() && "Hostname" in StringFields();
  }

  /** For the program's own message type and any record that its decoder can print: the message that arrives is the
      intended one if and only if every string is UTF-8 without escapes, the host name is UTF-8 and neither of the two
      state fields is in the record. Commas and numbers beyond int64 do no harm here. */
  lemma PlainMessageArrives(v4: bool, names: seq<string>, values: seq<Value>, hostname: string, now: int)
    requires Known(TableOf(v4), names) && AllInRange(v4, names, values) && Distinct(names)
    requires 0 <= now <= MAX_INT64
    ensures ViaPlain(MessageSchema(), names, values, hostname, now)
            == Some(IntendedMessage(names, values, hostname, now))
       <==> AllClean(values) && NoState(names) && WellFormed(hostname)
  {
    TableNamesAreClean(v4, names);
    SchemaHasTime();
    RecordHasFields(v4, names, values);
    PlainBringsIntended(MessageSchema(), names, values, hostname, now);
  }

  lemma StateIsUnknown(name: string)
    requires IsState(name)
    ensures Clean(name) && name !in MessageSchema()
  {
    StatesAreNotListed(name);
    assert name !in MessageFields();
    AsciiIsWellFormed(name);
  }

  /** In the program's own message, a state field loses everything that the list has from it on, and the time. */
  lemma StateFieldCuts(v4: bool, names: seq<string>, values: seq<Value>, more: seq<string>, others: seq<Value>,
                       hostname: string, now: int)
    requires Known(TableOf(v4), names) && AllInRange(v4, names, values) && Distinct(names) && NoState(names)
    requires AllClean(values) && |more| == |others| && more != [] && IsState(more[0])
    ensures ViaPlain(MessageSchema(), names + more, values + others, hostname, now)
         == Sent(AsMessage(names, values, map[])["Hostname" := Characters(hostname)])
  {
    TableNamesAreClean(v4, names);
    RecordHasFields(v4, names, values);
    StateIsUnknown(more[0]);
    UnknownFieldCuts(MessageSchema(), names, values, more, others, hostname, now);
  }

  // ---------------------------------------------------------------- one record, three serialisations

  lemma OneMoreFloat(m: Message, k: string, v: Value)
    ensures AsFloats(m[k := AsVal(v)]) == AsFloats(m)[k := AsPb(v)]
  {
  }

  lemma {:induction false} MessageAsStruct(names: seq<string>, values: seq<Value>, m: Message)
    requires |names| == |values|
    ensures AsFloats(AsMessage(names, values, m)) == AsStruct(names, values, AsFloats(m))
  {
    if names != [] {
      OneMoreFloat(m, names[0], values[0]);
      MessageAsStruct(names[1..], values[1..], m[names[0] := AsVal(values[0])]);
    }
  }

  /** The intended message, its numbers through float64, is the intended map. */
  lemma MessageIsTheRecord(names: seq<string>, values: seq<Value>, hostname: string, now: nat)
    requires |names| == |values|
    ensures AsFloats(IntendedMessage(names, values, hostname, now)) == Intended(names, values, hostname, now)
  {
    var m := AsMessage(names, values, map[]);
    MessageAsStruct(names, values, map[]);
    assert AsFloats(map[]) == map[];
    OneMoreFloat(m, "Timestamp", Num(now));
    OneMoreFloat(m["Timestamp" := Number(now)], "Hostname", Str(hostname));
    var read, time, host := AsFloats(m), AsPb(Num(now)), AsPb(Str(hostname));
    assert |"Timestamp"| != |"Hostname"|;
    assert read["Timestamp" := time]["Hostname" := host] == read["Hostname" := host]["Timestamp" := time];
  }

  lemma PlainConforms(schema: Schema, name: string, v: Value)
    requires HasField(schema, name, v) && Plain(v)
    ensures ConformsAt(schema, map[name := AsVal(v)], name)
  {
  }

  lemma IntendedConforms(schema: Schema, names: seq<string>, values: seq<Value>, hostname: string, now: nat)
    requires |names| == |values| && Distinct(names) && "Hostname" !in names && "Timestamp" !in names
    requires HasFields(schema, names, values) && AllPlain(values) && now <= MAX_INT64
    requires HasField(schema, "Timestamp", Num(now)) && schema["Timestamp"].Uint64?
    requires HasField(schema, "Hostname", Str(hostname))
    ensures Conforms(schema, IntendedMessage(names, values, hostname, now))
  {
    var m := IntendedMessage(names, values, hostname, now);
    forall k | k in m
      ensures ConformsAt(schema, m, k)
    {
      if k != "Timestamp" && k != "Hostname" {
        KeysOfMessage(names, values, map[]);
        var i :| 0 <= i < |names| && names[i] == k;
        MessageByName(names, values, map[], i);
        PlainConforms(schema, names[i], values[i]);
      }
    }
  }

  lemma RecordConforms(v4: bool, names: seq<string>, values: seq<Value>, hostname: string, now: nat)
    requires Known(TableOf(v4), names) && AllInRange(v4, names, values) && Distinct(names)
    requires AllPlain(values) && now <= MAX_INT64 && NoState(names)
    ensures Conforms(MessageSchema(), IntendedMessage(names, values, hostname, now))
  {
    TableNamesAreClean(v4, names);
    SchemaHasTime();
    RecordHasFields(v4, names, values);
    IntendedConforms(MessageSchema(), names, values, hostname, now);
  }

  /** A plain record with a plain time, sent by kafka in its three serialisations: as JSON it arrives as the intended
      map if and only if its strings are clean; as a struct message, if and only if they are UTF-8; as a plain message
      it arrives as one record with that map if and only if its strings are clean and it has no state field. */
  lemma ThreeReadersAgree(v4: bool, names: seq<string>, values: seq<Value>, hostname: string, now: nat)
    requires Known(TableOf(v4), names) && AllInRange(v4, names, values) && KindsAgree(names, values) && Distinct(names)
    requires AllPlain(values) && HasPlainTime(now) && now <= MAX_INT64 && Clean(hostname)
    ensures var record, m := Intended(names, values, hostname, now), IntendedMessage(names, values, hostname, now);
            && AsFloats(m) == record
            && (ViaJson(names, values, hostname, now) == Some(record) <==> AllClean(values))
            && ViaStruct(names, values, hostname, now) == (if AllUtf8(values) then Some(record) else None)
            && (ViaPlain(MessageSchema(), names, values, hostname, now) == Some(m)
                <==> AllClean(values) && NoState(names))
            && (NoState(names) ==> Conforms(MessageSchema(), m))
  {
    TwoReadersAgree(v4, names, values, hostname, now);
    PlainMessageArrives(v4, names, values, hostname, now);
    MessageIsTheRecord(names, values, hostname, now);
    if NoState(names) {
      RecordConforms(v4, names, values, hostname, now);
    }
  }

  // ---------------------------------------------------------------- and its rows

  /** The fields asked for are in the record. */
  ghost predicate InRecord(fields: seq<string>, names: seq<string>) {
    forall i :: 0 <= i < |fields| ==> fields[i] in names || fields[i] == "Timestamp" || fields[i] == "Hostname"
  }

  lemma AskedIsThere(names: seq<string>, values: seq<Value>, hostname: string, now: nat, field: string)
    requires |names| == |values| && (field in names || field == "Timestamp" || field == "Hostname")
    ensures field in IntendedMessage(names, values, hostname, now)
  {
    KeysOfMessage(names, values, map[]);
  }

  /** A number in its column: in 64 bits, maybe through float64, or in 32. */
  predicate ShowsNumber(c: Cell, kind: Kind, n: nat, floats: bool) {
    if kind.Uint64? then c.U64? && c.n == (if floats then Float64.Float64(n) else n) else c == Cell.U32(n)
  }

  /** One cell for each field asked for: what was printed under that name, the host name, the time. */
  ghost predicate ShowsPrinted(schema: Schema, fields: seq<string>, names: seq<string>, values: seq<Value>,
                               hostname: string, now: nat, floats: bool, row: seq<Cell>)
    requires |names| == |values|
  {
    && |row| == |fields|
    && (forall i, j :: 0 <= i < |fields| && 0 <= j < |names| && fields[i] == names[j] && names[j] in schema ==>
          ShowsValue(row[i], schema[names[j]], values[j], floats))
    && (forall i :: 0 <= i < |fields| && fields[i] == "Hostname" ==> row[i] == S(hostname))
    && (forall i :: 0 <= i < |fields| && fields[i] == "Timestamp" ==> ShowsNumber(row[i], Uint64, now, floats))
  }

  predicate ShowsValue(c: Cell, kind: Kind, v: Value, floats: bool) {
    match v
    case Str(s) => c == S(s)
    case Num(n) => ShowsNumber(c, kind, n, floats)
  }

  lemma TextCells(schema: Schema, fields: seq<string>, m: Message, i: nat, s: string, row: seq<Cell>, exact: seq<Cell>)
    requires ShowsStruct(schema, fields, AsFloats(m), map[], row) && ShowsMessage(schema, fields, m, exact)
    requires i < |fields| && fields[i] in m && fields[i] in schema && schema[fields[i]].String?
    requires m[fields[i]] == Characters(s)
    ensures row[i] == S(s) && exact[i] == S(s)
  {
    assert AsFloats(m)[fields[i]] == StringValue(s);
  }

  lemma NumberCells(schema: Schema, fields: seq<string>, m: Message, i: nat, n: nat, row: seq<Cell>, exact: seq<Cell>)
    requires ShowsStruct(schema, fields, AsFloats(m), map[], row) && ShowsMessage(schema, fields, m, exact)
    requires i < |fields| && fields[i] in m && fields[i] in schema && !schema[fields[i]].String?
    requires m[fields[i]] == Number(n) && n <= MAX_INT64 && (schema[fields[i]].Uint32? ==> n < POW32)
    ensures ShowsNumber(row[i], schema[fields[i]], n, true) && ShowsNumber(exact[i], schema[fields[i]], n, false)
  {
    assert AsFloats(m)[fields[i]] == NumberValue(Float64.Float64(n));
    SmallFloats(n);
    SmallMods(n, Float64.Float64(n));
  }

  /** The cells of one printed value. */
  lemma CellsOfValue(schema: Schema, fields: seq<string>, m: Message, i: nat, v: Value, row: seq<Cell>,
                     exact: seq<Cell>)
    requires ShowsStruct(schema, fields, AsFloats(m), map[], row) && ShowsMessage(schema, fields, m, exact)
    requires i < |fields| && HasField(schema, fields[i], v) && Plain(v) && fields[i] in m && m[fields[i]] == AsVal(v)
    ensures ShowsValue(row[i], schema[fields[i]], v, true) && ShowsValue(exact[i], schema[fields[i]], v, false)
  {
    match v
    case Str(s) => TextCells(schema, fields, m, i, s, row, exact);
    case Num(n) => NumberCells(schema, fields, m, i, n, row, exact);
  }

  lemma CellsArePrinted(schema: Schema, names: seq<string>, values: seq<Value>, hostname: string, now: nat,
                        fields: seq<string>, m: Message, row: seq<Cell>, exact: seq<Cell>)
    requires |names| == |values| && Distinct(names) && "Hostname" !in names && "Timestamp" !in names
    requires HasFields(schema, names, values) && AllPlain(values) && now <= MAX_INT64
    requires HasField(schema, "Timestamp", Num(now)) && schema["Timestamp"].Uint64?
    requires HasField(schema, "Hostname", Str(hostname)) && m == IntendedMessage(names, values, hostname, now)
    requires ShowsStruct(schema, fields, AsFloats(m), map[], row) && ShowsMessage(schema, fields, m, exact)
    ensures ShowsPrinted(schema, fields, names, values, hostname, now, true, row)
    ensures ShowsPrinted(schema, fields, names, values, hostname, now, false, exact)
  {
    forall i, j | 0 <= i < |fields| && 0 <= j < |names| && fields[i] == names[j]
      ensures names[j] in schema
      ensures ShowsValue(row[i], schema[names[j]], values[j], true)
      ensures ShowsValue(exact[i], schema[names[j]], values[j], false)
    {
      MessageByName(names, values, map[], j);
      CellsOfValue(schema, fields, m, i, values[j], row, exact);
    }
    forall i | 0 <= i < |fields| && fields[i] == "Timestamp"
      ensures ShowsNumber(row[i], Uint64, now, true) && ShowsNumber(exact[i], Uint64, now, false)
    {
      NumberCells(schema, fields, m, i, now, row, exact);
    }
    forall i | 0 <= i < |fields| && fields[i] == "Hostname"
      ensures row[i] == S(hostname) && exact[i] == S(hostname)
    {
      TextCells(schema, fields, m, i, hostname, row, exact);
    }
  }

  /** A record without state fields gives one ClickHouse row, by whichever serialisation it came, if and only if every
      number asked for is exact in float64; JSON and struct messages always give the same. */
  lemma RecordRows(v4: bool, names: seq<string>, values: seq<Value>, hostname: string, now: nat, fields: seq<string>)
    requires Known(TableOf(v4), names) && AllInRange(v4, names, values) && KindsAgree(names, values) && Distinct(names)
    requires AllPlain(values) && HasPlainTime(now) && now <= MAX_INT64 && Clean(hostname)
    requires NoState(names) && InRecord(fields, names)
    ensures var schema, m := MessageSchema(), IntendedMessage(names, values, hostname, now);
            var spb, pb := SpbRow(None, "", schema, fields, m), PbRow(None, "", schema, fields, m);
            && spb.Some? && ShowsPrinted(schema, fields, names, values, hostname, now, true, spb.value)
            && pb.Some? && ShowsPrinted(schema, fields, names, values, hostname, now, false, pb.value)
    ensures var schema, m := MessageSchema(), IntendedMessage(names, values, hostname, now);
            && JsonRow(None, "", schema, fields, m) == SpbRow(None, "", schema, fields, m)
            && AllPresent(m, fields)
            && (PbRow(None, "", schema, fields, m) == SpbRow(None, "", schema, fields, m)
                <==> forall i :: 0 <= i < |fields| ==> Exact(m[fields[i]]))
  {
    var schema, m := MessageSchema(), IntendedMessage(names, values, hostname, now);
    ThreeReadersAgree(v4, names, values, hostname, now);
    forall i | 0 <= i < |fields|
      ensures fields[i] in m
    {
      AskedIsThere(names, values, hostname, now, fields[i]);
    }
    RowsOfMessage(schema, m, fields);
    RowsArePrinted(v4, names, values, hostname, now, fields, m);
  }

  lemma RowsArePrinted(v4: bool, names: seq<string>, values: seq<Value>, hostname: string, now: nat,
                       fields: seq<string>, m: Message)
    requires Known(TableOf(v4), names) && AllInRange(v4, names, values) && Distinct(names) && NoState(names)
    requires AllPlain(values) && now <= MAX_INT64 && m == IntendedMessage(names, values, hostname, now)
    requires AllKnown(MessageSchema(), fields)
    ensures var schema := MessageSchema();
            var spb, pb := SpbRow(None, "", schema, fields, m), PbRow(None, "", schema, fields, m);
            && spb.Some? && ShowsPrinted(schema, fields, names, values, hostname, now, true, spb.value)
            && pb.Some? && ShowsPrinted(schema, fields, names, values, hostname, now, false, pb.value)
  {
    var schema := MessageSchema();
    SpbRowShows(schema, AsFloats(m), map[], fields);
    PbRowShows(schema, m, map[], fields);
    TableNamesAreClean(v4, names);
    RecordHasFields(v4, names, values);
    SchemaHasTime();
    CellsArePrinted(schema, names, values, hostname, now, fields, m,
                    SpbRow(None, "", schema, fields, m).value, PbRow(None, "", schema, fields, m).value);
  }

  predicate Exact(v: Val) {
    v.Number? ==> Float64.Float64(v.n) == v.n
  }

  predicate AllPresent(m: Message, fields: seq<string>) {
    forall i :: 0 <= i < |fields| ==> fields[i] in m
  }

  lemma RowsOfMessage(schema: Schema, m: Message, fields: seq<string>)
    requires Conforms(schema, m) && AllPresent(m, fields)
    ensures JsonRow(None, "", schema, fields, m) == SpbRow(None, "", schema, fields, m)
    ensures PbRow(None, "", schema, fields, m) == SpbRow(None, "", schema, fields, m)
       <==> forall i :: 0 <= i < |fields| ==> Exact(m[fields[i]])
  {
    assert AllKnown(schema, fields);
    JsonRowAgrees(None, "", schema, fields, m);
    PbRowAgrees(None, "", schema, fields, m);
  }
}
