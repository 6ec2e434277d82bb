/** The printed record as JSON (RFC 8259), and the host name that the kafka egress adds to it
    (egress/kafka/kafka.go).  The readers cover compact objects of strings and integers: all the agent prints. */
module Json {
  import opened Text
  import opened Decoding
  import opened JsonStrings
  import opened Utf8

  datatype JsonValue = JString(s: string) | JNumber(n: int)

  type Object = seq<(string, JsonValue)>

  // ---------------------------------------------------------------- a reader

  function DigitRun(s: string): (r: string)
    ensures |r| <= |s| && AllDigits(r)
  {
    if s == [] || !IsDigit(s[0]) then "" else [s[0]] + DigitRun(s[1..])
  }

  /** An integer: no leading zero, no fraction, no exponent. */
  function ReadNatural(s: string): (r: Option<(nat, string)>)
    ensures r.Some? ==> |r.value.1| < |s|
  {
    var digits := DigitRun(s);
    var rest := s[|digits|..];
    if digits == "" || (|digits| > 1 && digits[0] == '0') then None
    else if rest != [] && rest[0] in {'.', 'e', 'E'} then None
    else Some((DigitsValue(digits), rest))
  }

  function ReadNumber(s: string): (r: Option<(int, string)>)
    ensures r.Some? ==> |r.value.1| < |s|
  {
    var negative := s != [] && s[0] == '-';
    match ReadNatural(if negative then s[1..] else s)
    case None => None
    case Some((m, rest)) =>
      var n: int := m;
      Some((if negative then -n else n, rest))
  }

  function ReadValue(lenient: bool, s: string): (r: Option<(JsonValue, string)>)
    ensures r.Some? ==> |r.value.1| < |s|
  {
    if s != [] && s[0] == '"' then
      match ReadString(lenient, s[1..])
      case None => None
      case Some((t, rest)) => Some((JString(t), rest))
    else
      match ReadNumber(s)
      case None => None
      case Some((n, rest)) => Some((JNumber(n), rest))
  }

  function ReadMember(lenient: bool, s: string): (r: Option<((string, JsonValue), string)>)
    ensures r.Some? ==> |r.value.1| < |s|
  {
    if s == [] || s[0] != '"' then None
    else
      match ReadString(lenient, s[1..])
      case None => None
      case Some((name, t)) =>
        if t == [] || t[0] != ':' then None
        else
          match ReadValue(lenient, t[1..])
          case None => None
          case Some((v, rest)) => Some(((name, v), rest))
  }

  /** One or more members and the closing brace, which must end the text. */
  function ReadMembers(lenient: bool, s: string): Option<Object>
    decreases |s|
  {
    match ReadMember(lenient, s)
    case None => None
    case Some((m, rest)) =>
      if rest == "}" then Some([m])
      else if rest == [] || rest[0] != ',' then None
      else
        match ReadMembers(lenient, rest[1..])
        case None => None
        case Some(ms) => Some([m] + ms)
  }

  function ReadObject(lenient: bool, s: string): Option<Object> {
    if s == "{}" then Some([])
    else if s == [] || s[0] != '{' then None
    else ReadMembers(lenient, s[1..])
  }

  // ---------------------------------------------------------------- reading what was printed

  function AsJson(v: Value): JsonValue {
    match v
    case Num(n) => JNumber(n)
    case Str(s) => JString(s)
  }

  function AsObject(names: seq<string>, values: seq<Value>): (ms: Object)
    requires |names| == |values|
    ensures |ms| == |names|
  {
    if names == [] then [] else [(names[0], AsJson(values[0]))] + AsObject(names[1..], values[1..])
  }

  predicate CleanValue(v: Value) {
    v.Str? ==> Clean(v.s)
  }

  predicate AllClean(values: seq<Value>) {
    forall i :: 0 <= i < |values| ==> CleanValue(values[i])
  }

  predicate CleanNames(names: seq<string>) {
    forall i :: 0 <= i < |names| ==> Clean(names[i])
  }

  lemma {:induction false} DigitRunOfDigits(d: string, rest: string)
    requires AllDigits(d) && (rest == [] || !IsDigit(rest[0]))
    ensures DigitRun(d + rest) == d
  {
    if d == [] {
      assert d + rest == rest;
    } else {
      assert (d + rest)[1..] == d[1..] + rest;
      DigitRunOfDigits(d[1..], rest);
      assert [d[0]] + d[1..] == d;
    }
  }

  lemma {:induction false} NoLeadingZero(n: nat)
    requires n > 0
    ensures FormatUint(n)[0] != '0'
  {
    if n >= 10 {
      NoLeadingZero(n / 10);
      FormatUintIsDigits(n / 10);
    }
  }

  /** The digits of a printed number, and what follows them. */
  lemma ReadDigits(m: nat, rest: string)
    requires rest != [] && (rest[0] == ',' || rest[0] == '}')
    ensures var d := FormatUint(m);
            && d != "" && IsDigit(d[0]) && AllDigits(d) && DigitsValue(d) == m && (|d| > 1 ==> d[0] != '0')
            && DigitRun(d + rest) == d && (d + rest)[|d|..] == rest && (d + rest)[0] == d[0]
  {
    FormatUintIsDigits(m);
    DigitRunOfDigits(FormatUint(m), rest);
    if m > 0 {
      NoLeadingZero(m);
    }
  }

  lemma ReadPrintedNatural(m: nat, rest: string)
    requires rest != [] && (rest[0] == ',' || rest[0] == '}')
    ensures ReadNatural(FormatUint(m) + rest) == Some((m, rest))
    ensures (FormatUint(m) + rest)[0] != '-'
  {
    ReadDigits(m, rest);
  }

  lemma ReadPrintedNumber(n: int, rest: string)
    requires rest != [] && (rest[0] == ',' || rest[0] == '}')
    ensures ReadNumber(FormatInt(n) + rest) == Some((n, rest))
  {
    if n < 0 {
      ReadPrintedNatural(-n, rest);
      var s := "-" + FormatUint(-n) + rest;
      assert s[0] == '-' && s[1..] == FormatUint(-n) + rest;
    } else {
      ReadPrintedNatural(n, rest);
    }
  }

  function Named(name: string, r: Option<(JsonValue, string)>): Option<((string, JsonValue), string)> {
    match r
    case None => None
    case Some((v, rest)) => Some(((name, v), rest))
  }

  lemma ReadKey(lenient: bool, name: string, t: string)
    requires Clean(name)
    ensures ReadMember(lenient, "\"" + name + "\":" + t) == Named(name, ReadValue(lenient, t))
  {
    var s := "\"" + name + "\":" + t;
    var u := ":" + t;
    assert s[1..] == name + ("\"" + u);
    ReadClean(lenient, name, u);
    assert u[1..] == t;
  }

  lemma ReadNumberValue(lenient: bool, n: int, rest: string)
    requires rest != [] && (rest[0] == ',' || rest[0] == '}')
    ensures ReadValue(lenient, FormatInt(n) + rest) == Some((JNumber(n), rest))
  {
    var t := FormatInt(n) + rest;
    FormatUintIsDigits(if n < 0 then -n else n);
    assert t[0] == FormatInt(n)[0];
    ReadPrintedNumber(n, rest);
  }

  lemma ReadStringValue(lenient: bool, text: string, rest: string)
    ensures var r := ReadValue(lenient, "\"" + text + "\"" + rest);
            if Clean(text) then r == Some((JString(text), rest)) else r.Some? ==> r.value.0 != JString(text)
  {
    assert ("\"" + text + "\"" + rest)[1..] == text + ("\"" + rest);
    if Clean(text) {
      ReadClean(lenient, text, rest);
    } else {
      ReadOther(lenient, text, rest);
    }
  }

  lemma ReadPrintedMember(lenient: bool, name: string, v: Value, rest: string)
    requires Clean(name) && rest != [] && (rest[0] == ',' || rest[0] == '}')
    ensures var r := ReadMember(lenient, "\"" + name + "\":" + ValueText(v) + rest);
            if CleanValue(v) then r == Some(((name, AsJson(v)), rest))
            else r.Some? ==> r.value.0.0 == name && r.value.0.1 != AsJson(v)
  {
    ConcatAssoc("\"" + name + "\":", ValueText(v), rest);
    ReadKey(lenient, name, ValueText(v) + rest);
    match v
    case Num(n) => ReadNumberValue(lenient, n, rest);
    case Str(text) => ReadStringValue(lenient, text, rest);
  }

  lemma SameRest<T>(x: T, a: seq<T>, b: seq<T>)
    ensures [x] + a == [x] + b <==> a == b
  {
    assert ([x] + a)[1..] == a && ([x] + b)[1..] == b;
  }

  lemma AllCleanRest(values: seq<Value>)
    requires values != []
    ensures AllClean(values) <==> CleanValue(values[0]) && AllClean(values[1..])
  {
  }

  lemma PrintedMembersFollow(names: seq<string>, values: seq<Value>, rest: string)
    requires |names| == |values| && names != []
    ensures Members(names, values) + rest
         == "\"" + names[0] + "\":" + ValueText(values[0]) + ("," + (Members(names[1..], values[1..]) + rest))
  {
  }

  /** Reading the printed members and what follows them: exactly those members, or something else if a string is not
      clean. */
  lemma {:induction false} ReadPrintedMembers(lenient: bool, names: seq<string>, values: seq<Value>,
                                              rest: string, ms: Object)
    requires |names| == |values| && CleanNames(names)
    ensures ReadMembers(lenient, Members(names, values) + rest) == Some(AsObject(names, values) + ms)
       <==> AllClean(values) && ReadMembers(lenient, rest) == Some(ms)
  {
    if names == [] {
      assert Members(names, values) + rest == rest;
      assert [] + ms == ms;
    } else {
      var next := Members(names[1..], values[1..]) + rest;
      var others := AsObject(names[1..], values[1..]) + ms;
      PrintedMembersFollow(names, values, rest);
      ReadPrintedMember(lenient, names[0], values[0], "," + next);
      ReadPrintedMembers(lenient, names[1..], values[1..], rest, ms);
      AllCleanRest(values);
      ConcatAssoc([(names[0], AsJson(values[0]))], AsObject(names[1..], values[1..]), ms);
      ReadFirst(lenient, Members(names, values) + rest, (names[0], AsJson(values[0])), CleanValue(values[0]),
                next, others);
    }
  }

  lemma ReadFirst(lenient: bool, s: string, first: (string, JsonValue), clean: bool, next: string, others: Object)
    requires var r := ReadMember(lenient, s);
             if clean then r == Some((first, "," + next)) else r.Some? ==> r.value.0 != first
    ensures ReadMembers(lenient, s) == Some([first] + others) <==> clean && ReadMembers(lenient, next) == Some(others)
  {
    var r := ReadMember(lenient, s);
    if clean {
      assert ("," + next)[1..] == next;
      assert ("," + next)[0] == ',';
      var more := ReadMembers(lenient, next);
      if more.Some? {
        SameRest(first, more.value, others);
      }
    } else if ReadMembers(lenient, s).Some? {
      assert ReadMembers(lenient, s).value[0] == r.value.0;
      assert ([first] + others)[0] == first;
    }
  }

  lemma ReadTimeMember(lenient: bool, now: int, rest: string)
    requires rest != [] && (rest[0] == ',' || rest[0] == '}')
    ensures ReadMember(lenient, TIMESTAMP_KEY + FormatInt(now) + rest) == Some((("Timestamp", JNumber(now)), rest))
  {
    assert TIMESTAMP_KEY == "\"" + "Timestamp" + "\":";
    ConcatAssoc(TIMESTAMP_KEY, FormatInt(now), rest);
    AsciiIsWellFormed("Timestamp");
    ReadKey(lenient, "Timestamp", FormatInt(now) + rest);
    ReadNumberValue(lenient, now, rest);
  }

  /** A printed record is a JSON object with exactly the intended members if and only if every string is UTF-8 and none
      needs an escape. */
  lemma RecordIsJson(lenient: bool, names: seq<string>, values: seq<Value>, now: int)
    requires |names| == |values| && CleanNames(names)
    ensures ReadObject(lenient, RecordText(names, values, now))
         == Some(AsObject(names, values) + [("Timestamp", JNumber(now))])
       <==> AllClean(values)
  {
    ReadTimeMember(lenient, now, "}");
    RecordBody(names, values, now);
    ReadPrintedMembers(lenient, names, values, TimeText(now), [("Timestamp", JNumber(now))]);
  }

  // ---------------------------------------------------------------- what a reader makes of other records

  /** The member's name, and its value exactly if that is clean. */
  ghost predicate Alike(name: string, v: Value, m: (string, JsonValue)) {
    m.0 == name && (m.1 == AsJson(v) <==> CleanValue(v))
  }

  ghost predicate AllAlike(names: seq<string>, values: seq<Value>, ms: Object) {
    |names| == |values| == |ms| && forall i :: 0 <= i < |names| ==> Alike(names[i], values[i], ms[i])
  }

  lemma ReadTextBeforeKey(lenient: bool, text: string, next: string)
    requires StartsKey(next) && ',' !in text
    ensures var r := ReadValue(lenient, "\"" + text + "\"" + ("," + next));
            r.Some? ==> r.value.1 == "," + next || Stuck(r.value.1)
  {
    assert ("\"" + text + "\"" + ("," + next))[1..] == text + ("\"," + next);
    ReadEnds(lenient, text, next);
  }

  /** A member without a comma of its own, before another key: reading goes on at that key or nowhere. */
  lemma ReadMemberBeforeKey(lenient: bool, name: string, v: Value, next: string)
    requires Clean(name) && StartsKey(next) && (v.Str? ==> ',' !in v.s)
    ensures var r := ReadMember(lenient, "\"" + name + "\":" + ValueText(v) + ("," + next));
            r.Some? ==> Alike(name, v, r.value.0) && (r.value.1 == "," + next || Stuck(r.value.1))
  {
    var rest := "," + next;
    ReadPrintedMember(lenient, name, v, rest);
    if v.Str? {
      ConcatAssoc("\"" + name + "\":", ValueText(v), rest);
      ReadKey(lenient, name, ValueText(v) + rest);
      ReadTextBeforeKey(lenient, v.s, next);
    }
  }

  predicate CommaFreeStrings(values: seq<Value>) {
    forall i :: 0 <= i < |values| ==> values[i].Str? ==> ',' !in values[i].s
  }

  lemma KeyOfMembers(names: seq<string>, values: seq<Value>, rest: string)
    requires |names| == |values| && StartsKey(rest) && forall i :: 0 <= i < |names| ==> StartsKey("\"" + names[i])
    ensures StartsKey(Members(names, values) + rest)
  {
    if names == [] {
      assert Members(names, values) + rest == rest;
    } else {
      PrintedMembersFollow(names, values, rest);
      var key := "\"" + names[0];
      assert (Members(names, values) + rest)[..2] == key[..2];
    }
  }

  /** `r`, if anything, is the members alike and then `more`. */
  ghost predicate ThenMore(names: seq<string>, values: seq<Value>, more: Object, r: Option<Object>) {
    r.Some? ==> |r.value| >= |names| && AllAlike(names, values, r.value[..|names|]) && r.value[|names|..] == more
  }

  lemma OneMoreAlike(names: seq<string>, values: seq<Value>, more: Object, m: (string, JsonValue), r: Option<Object>)
    requires |names| == |values| && names != [] && Alike(names[0], values[0], m)
    requires ThenMore(names[1..], values[1..], more, r) && r.Some?
    ensures ThenMore(names, values, more, Some([m] + r.value))
  {
    var all := [m] + r.value;
    assert all[|names|..] == r.value[|names| - 1..];
    forall i | 0 <= i < |names|
      ensures Alike(names[i], values[i], all[i])
    {
      if i > 0 {
        assert all[i] == r.value[..|names| - 1][i - 1];
        assert names[i] == names[1..][i - 1] && values[i] == values[1..][i - 1];
        assert Alike(names[1..][i - 1], values[1..][i - 1], r.value[..|names| - 1][i - 1]);
      }
    }
  }

  /** Reading on, or not, after a first member. */
  lemma ReadOn(lenient: bool, s: string, next: string)
    requires var r := ReadMember(lenient, s); r.Some? ==> r.value.1 == "," + next || Stuck(r.value.1)
    ensures var r, more := ReadMember(lenient, s), ReadMembers(lenient, next);
            ReadMembers(lenient, s).Some? ==>
              r.Some? && more.Some? && ReadMembers(lenient, s).value == [r.value.0] + more.value
  {
    assert ("," + next)[1..] == next && ("," + next)[0] == ',';
  }

  /** Whatever bytes the strings hold but commas, a reader that gets through the record finds the same names in the same
      order, and right values where they are clean, and only there. */
  lemma {:induction false} ReadAnyMembers(lenient: bool, names: seq<string>, values: seq<Value>, rest: string,
                                          ms: Object)
    requires |names| == |values| && CleanNames(names) && CommaFreeStrings(values)
    requires forall i :: 0 <= i < |names| ==> StartsKey("\"" + names[i])
    requires StartsKey(rest) && ReadMembers(lenient, rest) == Some(ms)
    ensures ThenMore(names, values, ms, ReadMembers(lenient, Members(names, values) + rest))
  {
    if names == [] {
      assert Members(names, values) + rest == rest;
      assert ms[0..] == ms;
    } else {
      var next := Members(names[1..], values[1..]) + rest;
      var s := Members(names, values) + rest;
      PrintedMembersFollow(names, values, rest);
      KeyOfMembers(names[1..], values[1..], rest);
      ReadMemberBeforeKey(lenient, names[0], values[0], next);
      ReadAnyMembers(lenient, names[1..], values[1..], rest, ms);
      ReadOn(lenient, s, next);
      if ReadMembers(lenient, s).Some? {
        OneMoreAlike(names, values, ms, ReadMember(lenient, s).value.0, ReadMembers(lenient, next));
      }
    }
  }

  // ---------------------------------------------------------------- addHostname

  function JsonTail(hostname: string): string {
    "\"Hostname\":\"" + hostname + "\"}"
  }

  function WithTail(s: string, tail: string): string
    requires s != []
  {
    s[..|s| - 1] + "," + tail
  }

  /** The text after the members. */
  function Origin(hostname: string, now: int): string {
    TIMESTAMP_KEY + FormatInt(now) + ("," + JsonTail(hostname))
  }

  lemma WithTailOfRecord(names: seq<string>, values: seq<Value>, now: int, hostname: string)
    requires |names| == |values|
    ensures RecordText(names, values, now) != []
    ensures WithTail(RecordText(names, values, now), JsonTail(hostname))
         == "{" + (Members(names, values) + Origin(hostname, now))
  {
  }

  lemma ReadLast(lenient: bool, s: string, name: string, v: Value)
    requires Clean(name) && s == "\"" + name + "\":" + ValueText(v) + "}"
    ensures ReadMembers(lenient, s) == Some([(name, AsJson(v))]) <==> CleanValue(v)
  {
    ReadPrintedMember(lenient, name, v, "}");
    var r := ReadMember(lenient, s);
    if !CleanValue(v) && ReadMembers(lenient, s).Some? {
      assert ReadMembers(lenient, s).value[0] == r.value.0;
    }
  }

  lemma ReadHostMember(lenient: bool, hostname: string)
    ensures ReadMembers(lenient, JsonTail(hostname)) == Some([("Hostname", JString(hostname))]) <==> Clean(hostname)
  {
    AsciiIsWellFormed("Hostname");
    ReadLast(lenient, JsonTail(hostname), "Hostname", Str(hostname));
  }

  lemma OriginStartsKey(hostname: string, now: int)
    ensures StartsKey(Origin(hostname, now))
  {
    assert Origin(hostname, now)[..12] == TIMESTAMP_KEY;
    assert Origin(hostname, now)[0] == TIMESTAMP_KEY[0] && Origin(hostname, now)[1] == TIMESTAMP_KEY[1];
  }

  lemma ReadOrigin(lenient: bool, now: int, hostname: string)
    ensures ReadMembers(lenient, Origin(hostname, now))
         == Some([("Timestamp", JNumber(now)), ("Hostname", JString(hostname))])
       <==> Clean(hostname)
  {
    var tail := JsonTail(hostname);
    var time, host := ("Timestamp", JNumber(now)), ("Hostname", JString(hostname));
    ReadTimeMember(lenient, now, "," + tail);
    ReadHostMember(lenient, hostname);
    ReadFirst(lenient, Origin(hostname, now), time, true, tail, [host]);
    assert [time, host] == [time] + [host];
  }

  /** With the host name added, the record is the same object with one more member, exactly when that needs no escape
      either. */
  lemma HostnameIsAMember(lenient: bool, names: seq<string>, values: seq<Value>, now: int, hostname: string)
    requires |names| == |values| && CleanNames(names)
    ensures RecordText(names, values, now) != []
    ensures ReadObject(lenient, WithTail(RecordText(names, values, now), JsonTail(hostname)))
         == Some(AsObject(names, values) + [("Timestamp", JNumber(now)), ("Hostname", JString(hostname))])
       <==> AllClean(values) && Clean(hostname)
  {
    var body := Members(names, values) + Origin(hostname, now);
    WithTailOfRecord(names, values, now, hostname);
    ReadOrigin(lenient, now, hostname);
    ReadPrintedMembers(lenient, names, values, Origin(hostname, now),
                       [("Timestamp", JNumber(now)), ("Hostname", JString(hostname))]);
    assert ("{" + body)[1..] == body;
  }
}
