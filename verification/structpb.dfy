/** The positional re-parser of printed records (egress/helper/helper.go: StructPB). */
module StructPB {
  import opened Text
  import opened Buffers
  import opened Decoding
  import Float64

  datatype PbValue = StringValue(s: string) | NumberValue(n: int)

  type Struct = map<string, PbValue>

  predicate IsString(name: string) {
    name == "Task" || name == "SAddr" || name == "DAddr"
  }

  /** One field: skip its key, read through the next comma.  A missing comma or a malformed number is log.Fatal;
      a string value of less than two bytes is a slice panic. */
  function ParseField(name: string, s: string): (r: Result<(PbValue, string)>)
    ensures r.Ok? ==> |r.value.1| <= |s|
  {
    var t := After(s, |name| + 3);
    if ',' !in t then Err(Fatal)
    else
      var v := Line(t, ',');
      LineIsPrefix(t, ',');
      if IsString(name) then
        if |v| < 3 then Err(Panic) else Ok((StringValue(v[1..|v| - 2]), After(t, |v|)))
      else
        match Atoi(v[..|v| - 1])
        case None => Err(Fatal)
        case Some(n) => Ok((NumberValue(Float64.Float64(n)), After(t, |v|)))
  }

  function ParseFields(names: seq<string>, s: string, read: Struct): Result<(Struct, string)> {
    if names == [] then Ok((read, s))
    else
      match ParseField(names[0], s)
      case Err(f) => Err(f)
      case Ok((v, rest)) => ParseFields(names[1..], rest, read[names[0] := v])
  }

  /** Ten bytes after the twelve of the timestamp's key; an unreadable time is logged and counts as 0. */
  function ParseTime(s: string): int {
    Atoi(Front(After(s, 12), 10)).GetOr(0)
  }

  function WithOrigin(read: Struct, hostname: string, time: int): Struct {
    read["Hostname" := StringValue(hostname)]["Timestamp" := NumberValue(Float64.Float64(time))]
  }

  function Parse(names: seq<string>, hostname: string, s: string): Result<Struct> {
    match ParseFields(names, After(s, 1), map[])
    case Err(f) => Err(f)
    case Ok((read, rest)) => Ok(WithOrigin(read, hostname, ParseTime(rest)))
  }

  class Parser {
    var fieldsLen: seq<nat>
    var fieldsName: seq<string>
    const hostname: string

    ghost predicate Valid()
      reads this
    {
      |fieldsLen| == |fieldsName| && forall i :: 0 <= i < |fieldsLen| ==> fieldsLen[i] == |fieldsName[i]| + 3
    }

    constructor (fields: seq<string>, hostname: string)
      ensures Valid() && fieldsName == fields && this.hostname == hostname
    {
      this.hostname := hostname;
      fieldsLen, fieldsName := [], [];
      new;
      for i := 0 to |fields|
        invariant Valid() && fieldsName == fields[..i]
      {
        fieldsLen := fieldsLen + [|fields[i]| + 3];
        fieldsName := fieldsName + [fields[i]];
      }
    }

    method UnmarshalField(i: nat, buf: Buffer) returns (r: Result<PbValue>)
      requires Valid() && i < |fieldsName|
      modifies buf
      ensures match ParseField(fieldsName[i], old(buf.unread))
              case Ok((v, rest)) => r == Ok(v) && buf.unread == rest
              case Err(f) => r == Err(f)
    {
      var _ := buf.Next(fieldsLen[i]);
      var v, found := buf.ReadBytes(',');
      if !found {
        return Err(Fatal);
      }
      LineIsPrefix(After(old(buf.unread), fieldsLen[i]), ',');
      if IsString(fieldsName[i]) {
        if |v| < 3 {
          return Err(Panic);
        }
        return Ok(StringValue(v[1..|v| - 2]));
      } else {
        match Atoi(v[..|v| - 1])
        case None =>
          return Err(Fatal);
        case Some(n) =>
          return Ok(NumberValue(Float64.Float64(n)));
      }
    }

    method Unmarshal(buf: Buffer) returns (r: Result<Struct>)
      requires Valid()
      modifies buf
      ensures r == Parse(fieldsName, hostname, old(buf.unread))
    {
      var read: Struct := map[];
      ghost var whole := ParseFields(fieldsName, After(buf.unread, 1), read);
      var _ := buf.Next(1);
      for i := 0 to |fieldsLen|
        invariant ParseFields(fieldsName[i..], buf.unread, read) == whole
      {
        ghost var names := fieldsName[i..];
        var v := UnmarshalField(i, buf);
        assert names[0] == fieldsName[i] && names[1..] == fieldsName[i + 1..];
        match v
        case Err(f) =>
          return Err(f);
        case Ok(value) =>
          read := read[fieldsName[i] := value];
      }
      var _ := buf.Next(12);
      var time := buf.Next(10);
      var t := match Atoi(time) case Some(n) => n case None => 0;
      return Ok(WithOrigin(read, hostname, t));
    }
  }

  // ---------------------------------------------------------------- parsing what was printed

  /** The record a printed one stands for: each value under its name, the host and the time added. */
  function AsPb(v: Value): PbValue {
    match v
    case Num(n) => NumberValue(Float64.Float64(n))
    case Str(s) => StringValue(s)
  }

  function AsStruct(names: seq<string>, values: seq<Value>, read: Struct): (m: Struct)
    requires |names| == |values|
  {
    if names == [] then read else AsStruct(names[1..], values[1..], read[names[0] := AsPb(values[0])])
  }

  function Intended(names: seq<string>, values: seq<Value>, hostname: string, now: int): Struct
    requires |names| == |values|
  {
    WithOrigin(AsStruct(names, values, map[]), hostname, now)
  }

  /** The printer quotes a value exactly when the parser expects quotes. */
  predicate KindsAgree(names: seq<string>, values: seq<Value>) {
    |names| == |values| && forall i :: 0 <= i < |names| ==> (values[i].Str? <==> IsString(names[i]))
  }

  /** What the parser can read back: no comma inside a string, no number beyond int64. */
  predicate Plain(v: Value) {
    match v
    case Num(n) => n <= MAX_INT64
    case Str(s) => ',' !in s
  }

  predicate AllPlain(values: seq<Value>) {
    forall i :: 0 <= i < |values| ==> Plain(values[i])
  }

  predicate Distinct(names: seq<string>) {
    forall i, j :: 0 <= i < j < |names| ==> names[i] != names[j]
  }

  predicate HasPlainTime(now: int) {
    |FormatInt(now)| == 10 || now == 0
  }

  lemma NoCommaInDigits(n: nat)
    ensures ',' !in FormatUint(n)
  {
  }

  lemma NoCommaInPlain(v: Value)
    requires Plain(v)
    ensures ',' !in ValueText(v)
  {
    if v.Num? {
      NoCommaInDigits(v.n);
    }
  }

  lemma ParsePlainField(name: string, v: Value, rest: string)
    requires v.Str? <==> IsString(name)
    requires Plain(v)
    ensures ParseField(name, Member(name, v) + rest) == Ok((AsPb(v), rest))
  {
    var t := ValueText(v) + "," + rest;
    AfterKey(name, v, rest);
    NoCommaInPlain(v);
    LineOfTerminated(ValueText(v), ',', rest);
    var line := Line(t, ',');
    assert After(t, |line|) == rest;
    assert t[|ValueText(v)|] == ',';
    assert line[..|line| - 1] == ValueText(v);
    match v
    case Num(n) =>
      AtoiInvertsFormatUint(n);
    case Str(s) =>
      assert line[1..|line| - 2] == s;
  }

  lemma ParseLargeNumber(name: string, n: nat, rest: string)
    requires !IsString(name) && n > MAX_INT64
    ensures ParseField(name, Member(name, Num(n)) + rest) == Err(Fatal)
  {
    var text := FormatUint(n);
    var t := text + "," + rest;
    AfterKey(name, Num(n), rest);
    NoCommaInDigits(n);
    LineOfTerminated(text, ',', rest);
    assert t[|text|] == ',';
    assert Line(t, ',')[..|text|] == text;
    AtoiInvertsFormatUint(n);
  }

  /** The line that the parser reads ends at the comma inside the string, short of the closing quote. */
  lemma ShortLine(s: string, rest: string)
    requires ',' in s
    ensures var t := ValueText(Str(s)) + "," + rest;
            ',' in t && |Line(t, ',')| <= |s| + 1
  {
    var text := ValueText(Str(s));
    var i :| 0 <= i < |s| && s[i] == ',';
    assert text[i + 1] == ',';
    LineOfPrefix(text, ',', "," + rest);
    assert text + "," + rest == text + ("," + rest);
    LineIsPrefix(text, ',');
    var line := Line(text, ',');
    assert text[|text| - 1] == '"' && line[|line| - 1] == ',';
  }

  /** What is read of a string with a comma: if it begins with that, nothing, by a panic; otherwise the part before the
      comma without its last byte, and the reader stands behind the comma, in the middle of the string. */
  lemma CommaCutsString(name: string, s: string, k: nat, rest: string)
    requires IsString(name) && k < |s| && s[k] == ',' && ',' !in s[..k]
    ensures var r := ParseField(name, Member(name, Str(s)) + rest);
            r == if k == 0 then Err(Panic) else Ok((StringValue(s[..k - 1]), s[k + 1..] + "\"," + rest))
  {
    AfterKey(name, Str(s), rest);
    LineToComma(s, k, rest);
    QuoteAndPart(s, k);
  }

  lemma SplitAtComma(s: string, k: nat, rest: string)
    requires k < |s| && s[k] == ','
    ensures "\"" + s + "\"" + "," + rest == ("\"" + s[..k]) + "," + (s[k + 1..] + "\"," + rest)
  {
    assert s == s[..k] + "," + s[k + 1..];
  }

  lemma LineToComma(s: string, k: nat, rest: string)
    requires k < |s| && s[k] == ',' && ',' !in s[..k]
    ensures var t := ValueText(Str(s)) + "," + rest;
            && ',' in t && Line(t, ',') == "\"" + s[..k] + ","
            && After(t, k + 2) == s[k + 1..] + "\"," + rest
  {
    var head, tail := "\"" + s[..k], s[k + 1..] + "\"," + rest;
    SplitAtComma(s, k, rest);
    LineOfTerminated(head, ',', tail);
    assert (head + "," + tail)[|head|] == ',';
    assert After(head + "," + tail, |head| + 1) == tail;
  }

  lemma QuoteAndPart(s: string, k: nat)
    requires k < |s|
    ensures var v := "\"" + s[..k] + ",";
            |v| == k + 2 && (k > 0 ==> v[1..|v| - 2] == s[..k - 1])
  {
  }

  /** A text that ends before the field's comma is a fatal error. */
  lemma MissingCommaIsFatal(name: string, s: string)
    requires ',' !in After(s, |name| + 3)
    ensures ParseField(name, s) == Err(Fatal)
  {
  }

  /** A comma in a string, or a number beyond int64, is never read back right. */
  lemma ParseOtherField(name: string, v: Value, rest: string)
    requires v.Str? <==> IsString(name)
    requires !Plain(v)
    ensures var r := ParseField(name, Member(name, v) + rest);
            r.Err? || r.value.0 != AsPb(v)
  {
    match v
    case Num(n) =>
      ParseLargeNumber(name, n, rest);
    case Str(s) =>
      AfterKey(name, v, rest);
      ShortLine(s, rest);
  }

  lemma {:induction false} OthersAreKept(names: seq<string>, s: string, read: Struct, name: string)
    requires name !in names && name in read
    ensures var r := ParseFields(names, s, read);
            r.Ok? ==> name in r.value.0 && r.value.0[name] == read[name]
  {
    if names != [] {
      var f := ParseField(names[0], s);
      if f.Ok? {
        OthersAreKept(names[1..], f.value.1, read[names[0] := f.value.0], name);
      }
    }
  }

  lemma {:induction false} OthersAreIntended(names: seq<string>, values: seq<Value>, read: Struct, name: string)
    requires |names| == |values|
    requires name !in names && name in read
    ensures name in AsStruct(names, values, read) && AsStruct(names, values, read)[name] == read[name]
  {
    if names != [] {
      OthersAreIntended(names[1..], values[1..], read[names[0] := AsPb(values[0])], name);
    }
  }

  /** The fields of a printed record are read back if all its values are plain. */
  lemma {:induction false} ParsePlainFields(names: seq<string>, values: seq<Value>, rest: string, read: Struct)
    requires KindsAgree(names, values) && AllPlain(values)
    ensures ParseFields(names, Members(names, values) + rest, read) == Ok((AsStruct(names, values, read), rest))
  {
    if names == [] {
      assert Members(names, values) + rest == rest;
    } else {
      var m := Member(names[0], values[0]);
      var tail := Members(names[1..], values[1..]) + rest;
      ConcatAssoc(m, Members(names[1..], values[1..]), rest);
      ParsePlainField(names[0], values[0], tail);
      ParsePlainFields(names[1..], values[1..], rest, read[names[0] := AsPb(values[0])]);
    }
  }

  /** ... and, under distinct names, only then: otherwise parsing fails or some name gets a wrong value. */
  lemma {:induction false} ParseOtherFields(names: seq<string>, values: seq<Value>, rest: string, read: Struct)
    returns (bad: string)
    requires KindsAgree(names, values) && Distinct(names) && !AllPlain(values)
    ensures bad in names && bad in AsStruct(names, values, read)
    ensures var r := ParseFields(names, Members(names, values) + rest, read);
            r.Ok? ==> bad in r.value.0 && r.value.0[bad] != AsStruct(names, values, read)[bad]
  {
    var m := Member(names[0], values[0]);
    var tail := Members(names[1..], values[1..]) + rest;
    ConcatAssoc(m, Members(names[1..], values[1..]), rest);
    if Plain(values[0]) {
      ParsePlainField(names[0], values[0], tail);
      bad := ParseOtherFields(names[1..], values[1..], rest, read[names[0] := AsPb(values[0])]);
    } else {
      bad := names[0];
      ParseOtherField(names[0], values[0], tail);
      var r := ParseField(names[0], m + tail);
      if r.Ok? {
        OthersAreKept(names[1..], r.value.1, read[bad := r.value.0], bad);
      }
      OthersAreIntended(names[1..], values[1..], read[bad := AsPb(values[0])], bad);
    }
  }

  /** The ten bytes taken for the time denote it exactly when it prints with ten bytes, or is 0. */
  lemma TimeIsReadBack(now: int)
    requires MIN_INT64 <= now <= MAX_INT64
    ensures var t := ParseTime(TimeText(now));
            Float64.Float64(t) == Float64.Float64(now) <==> HasPlainTime(now)
  {
    var d := FormatInt(now);
    var s := TIMESTAMP_KEY + d + "}";
    assert |TIMESTAMP_KEY| == 12;
    assert After(s, 12) == d + "}";
    var ten := Front(d + "}", 10);
    if |d| == 10 {
      assert ten == d;
      AtoiInvertsFormatInt(now);
    } else if |d| < 10 {
      ShortTimeIsZero(now);
    } else {
      assert ten == d[..10];
      LongTimeIsCut(now);
    }
  }

  lemma ShortTimeIsZero(now: int)
    requires |FormatInt(now)| < 10
    ensures Atoi(Front(FormatInt(now) + "}", 10)) == None
    ensures Float64.Float64(now) == 0 <==> now == 0
  {
    var d := FormatInt(now);
    var ten := Front(d + "}", 10);
    assert ten == d + "}";
    assert ten[|ten| - 1] == '}' && ten[1..][|ten| - 2] == '}' by {
      assert |d| >= 1 by { FormatUintIsDigits(if now < 0 then -now else now); }
    }
    FormatUintLength(if now < 0 then -now else now, 9);
    assert Pow10(9) == 1_000_000_000;
    Float64.ExactUpTo53Bits(now);
  }

  lemma LongTimeIsCut(now: int)
    requires |FormatInt(now)| > 10
    ensures Float64.Float64(Atoi(FormatInt(now)[..10]).GetOr(0)) != Float64.Float64(now)
  {
    var m := if now < 0 then -now else now;
    var d := FormatInt(now);
    var ten := d[..10];
    var k: nat := if now < 0 then 9 else 10;
    FormatUintIsDigits(m);
    FormatUintLength(m, k);
    var digits := if now < 0 then ten[1..] else ten;
    assert AllDigits(digits) && |digits| == k;
    DigitsValueBound(digits);
    assert Pow10(9) == 1_000_000_000 && Pow10(10) == 10_000_000_000;
    Float64.KeepsBounds(now, Pow10(k));
    Float64.ExactUpTo53Bits(Atoi(ten).GetOr(0));
  }

  /** The main law of the text format: a printed record is read back as the intended one exactly when
      its strings hold no comma, its numbers fit int64, and its time has ten bytes (or is 0). */
  lemma ParseInvertsPrint(names: seq<string>, values: seq<Value>, hostname: string, now: int)
    requires KindsAgree(names, values) && Distinct(names)
    requires "Hostname" !in names && "Timestamp" !in names
    requires MIN_INT64 <= now <= MAX_INT64
    ensures Parse(names, hostname, RecordText(names, values, now)) == Ok(Intended(names, values, hostname, now))
       <==> AllPlain(values) && HasPlainTime(now)
  {
    var time := TimeText(now);
    var intended := AsStruct(names, values, map[]);
    RecordBody(names, values, now);
    if AllPlain(values) {
      ParsePlainFields(names, values, time, map[]);
      TimeIsReadBack(now);
      OriginsDiffer(intended, intended, hostname, ParseTime(time), now);
    } else {
      var bad := ParseOtherFields(names, values, time, map[]);
      var r := ParseFields(names, Members(names, values) + time, map[]);
      if r.Ok? {
        assert WithOrigin(r.value.0, hostname, ParseTime(r.value.1))[bad] == r.value.0[bad];
        assert WithOrigin(intended, hostname, now)[bad] == intended[bad];
      }
    }
  }

  lemma OriginsDiffer(a: Struct, b: Struct, hostname: string, s: int, t: int)
    requires a == b
    ensures WithOrigin(a, hostname, s) == WithOrigin(b, hostname, t) <==> Float64.Float64(s) == Float64.Float64(t)
  {
    assert WithOrigin(a, hostname, s)["Timestamp"] == NumberValue(Float64.Float64(s));
    assert WithOrigin(b, hostname, t)["Timestamp"] == NumberValue(Float64.Float64(t));
  }
}
