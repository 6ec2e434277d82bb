/** Which list of fields a record is read with: the wiring of tracepoints to egresses (tcpdog/main.go), and what the
    positional readers make of a record printed with another list. */
module Wiring {
  import opened Text
  import opened Fields
  import opened Names
  import opened Decoding
  import opened StructPB
  import opened Egress
  import opened Program
  import opened Layout
  import opened Relay
  import Float64

  // ---------------------------------------------------------------- lists and records

  /** A list of distinct fields of the table. */
  predicate Usable(names: seq<string>) {
    Known(FieldsModel4(), names) && Distinct(names)
  }

  predicate TenBytes(now: int) {
    |FormatInt(now)| == 10
  }

  /** A record that the positional readers can read at all. */
  predicate Readable(printed: seq<string>, values: seq<Value>, now: int) {
    KindsAgree(printed, values) && AllPlain(values) && TenBytes(now)
  }

  lemma TenBytesFit(now: int)
    requires TenBytes(now)
    ensures MIN_INT64 <= now <= MAX_INT64
  {
    FormatUintLength(if now < 0 then -now else now, 10);
    assert Pow10(10) == 10_000_000_000;
  }

  lemma UsableMeans(names: seq<string>, i: nat)
    requires Usable(names) && i < |names|
    ensures 3 <= |names[i]| <= 13 && names[i] != "Hostname" && names[i] != "Timestamp"
  {
    NamesAreCapitalised(names[i]);
    TablesAreConsistent(true, names[i]);
  }

  // Values of the kinds that a list prints.

  function Short(name: string): Value {
    if IsString(name) then Str("a") else Num(0)
  }

  function Long(name: string): Value {
    if IsString(name) then Str("aaaaaaaaaaaaaaaa") else Num(10_000_000_000)
  }

  /** A value that is not read as x. */
  function Unlike(name: string, x: PbValue): Value {
    if IsString(name) then (if x == StringValue("a") then Str("b") else Str("a"))
    else if x == NumberValue(0) then Num(1)
    else Num(0)
  }

  lemma UnlikeIsUnlike(name: string, x: PbValue)
    ensures AsPb(Unlike(name, x)) != x && Plain(Unlike(name, x)) && (Unlike(name, x).Str? <==> IsString(name))
  {
    Float64.ExactUpTo53Bits(0);
    Float64.ExactUpTo53Bits(1);
  }

  lemma LongIsLong(name: string)
    ensures var v := Long(name);
            Plain(v) && (v.Str? <==> IsString(name)) && |ValueText(v)| >= 10 && ',' !in ValueText(v)
  {
    var v := Long(name);
    NoCommaInPlain(v);
    if v.Num? {
      FormatUintLength(v.n, 10);
      assert Pow10(10) == 10_000_000_000;
    }
  }

  lemma SomeTime()
    ensures TenBytes(1609564925)
  {
    FormatUintLength(1609564925, 10);
    FormatUintLength(1609564925, 9);
    assert Pow10(9) == 1_000_000_000 && Pow10(10) == 10_000_000_000;
  }

  // ---------------------------------------------------------------- the struct parser with another list

  /** Every readable record printed with one list is read right with the other. */
  ghost predicate ReadsRight(printed: seq<string>, read: seq<string>, hostname: string) {
    forall values, now :: Readable(printed, values, now) ==> ReadRight(printed, read, hostname, values, now)
  }

  predicate ReadRight(printed: seq<string>, read: seq<string>, hostname: string, values: seq<Value>, now: int)
    requires |printed| == |values|
  {
    Parse(read, hostname, RecordText(printed, values, now)) == Ok(Intended(printed, values, hostname, now))
  }

  lemma {:induction false} ParsedKey(names: seq<string>, s: string, read: Struct, k: string)
    ensures var r := ParseFields(names, s, read);
            r.Ok? ==> (k in r.value.0 <==> k in read || k in names)
  {
    if names != [] {
      var f := ParseField(names[0], s);
      assert k in names <==> k == names[0] || k in names[1..];
      if f.Ok? {
        ParsedKey(names[1..], f.value.1, read[names[0] := f.value.0], k);
      }
    }
  }

  lemma ParseHasKey(read: seq<string>, hostname: string, s: string, k: string)
    requires k != "Hostname" && k != "Timestamp"
    ensures var r := Parse(read, hostname, s); r.Ok? ==> (k in r.value <==> k in read)
  {
    ParsedKey(read, After(s, 1), map[], k);
  }

  lemma IntendedHasKey(printed: seq<string>, values: seq<Value>, hostname: string, now: int, k: string)
    requires |printed| == |values| && k != "Hostname" && k != "Timestamp"
    ensures k in Intended(printed, values, hostname, now) <==> k in printed
  {
    KeysOfStruct(printed, values, map[]);
  }

  /** With other keys, no record is read right. */
  lemma OtherKeys(printed: seq<string>, read: seq<string>, hostname: string, values: seq<Value>, now: int, k: string)
    requires |printed| == |values| && k != "Hostname" && k != "Timestamp"
    requires k in printed <==> k !in read
    ensures !ReadRight(printed, read, hostname, values, now)
  {
    ParseHasKey(read, hostname, RecordText(printed, values, now), k);
    IntendedHasKey(printed, values, hostname, now, k);
  }

  /** What both lists begin with is read alike. */
  lemma {:induction false} ParseCommon(names: seq<string>, values: seq<Value>, more: seq<string>, text: string,
                                       read: Struct)
    requires KindsAgree(names, values) && AllPlain(values)
    ensures ParseFields(names + more, Members(names, values) + text, read)
         == ParseFields(more, text, AsStruct(names, values, read))
  {
    if names == [] {
      assert names + more == more && Members(names, values) + text == text;
    } else {
      assert (names + more)[1..] == names[1..] + more;
      ConcatAssoc(Member(names[0], values[0]), Members(names[1..], values[1..]), text);
      ParsePlainField(names[0], values[0], Members(names[1..], values[1..]) + text);
      ParseCommon(names[1..], values[1..], more, text, read[names[0] := AsPb(values[0])]);
    }
  }

  /** A field's parse that ends within a text does not depend on what follows the text. */
  lemma ParseWithin(name: string, text: string, rest: string)
    requires |name| + 3 <= |text| && ',' in text[|name| + 3..]
    ensures var a, b := ParseField(name, text), ParseField(name, text + rest);
            if a.Ok? then b.Ok? && a.value.0 == b.value.0 else b.Err?
  {
    var t := text[|name| + 3..];
    assert After(text + rest, |name| + 3) == t + rest;
    LineOfPrefix(t, ',', rest);
  }

  lemma MemberEnd(name: string, other: string, v: Value)
    requires |name| <= |other| + |ValueText(v)|
    ensures |name| + 3 <= |Member(other, v)| && ',' in Member(other, v)[|name| + 3..]
  {
    var m := Member(other, v);
    var t := m[|name| + 3..];
    assert t[|t| - 1] == ',';
  }

  lemma NotAgain(names: seq<string>, i: nat)
    requires Distinct(names) && i < |names|
    ensures names[i] !in names[i + 1..] && names[i] !in names[..i]
  {
    var before, after := names[..i], names[i + 1..];
    forall k | 0 <= k < |after|
      ensures after[k] != names[i]
    {
      assert after[k] == names[i + 1 + k];
    }
    forall k | 0 <= k < |before|
      ensures before[k] != names[i]
    {
      assert before[k] == names[k];
    }
  }

  lemma NoOrigin(names: seq<string>)
    requires Usable(names)
    ensures "Hostname" !in names && "Timestamp" !in names
  {
    forall i | 0 <= i < |names|
      ensures names[i] != "Hostname" && names[i] != "Timestamp"
    {
      UsableMeans(names, i);
    }
  }

  /** The text from member i on. */
  function TextFrom(printed: seq<string>, values: seq<Value>, now: int, i: nat): string
    requires |printed| == |values| && i <= |printed|
  {
    Members(printed[i..], values[i..]) + TimeText(now)
  }

  lemma MembersSplit(names: seq<string>, values: seq<Value>, i: nat)
    requires |names| == |values| && i <= |names|
    ensures Members(names, values) == Members(names[..i], values[..i]) + Members(names[i..], values[i..])
  {
    assert names[..i] + names[i..] == names && values[..i] + values[i..] == values;
    MembersConcat(names[..i], values[..i], names[i..], values[i..]);
  }

  lemma TextSplits(printed: seq<string>, values: seq<Value>, now: int, i: nat)
    requires |printed| == |values| && i <= |printed|
    ensures After(RecordText(printed, values, now), 1)
         == Members(printed[..i], values[..i]) + TextFrom(printed, values, now, i)
  {
    RecordBody(printed, values, now);
    MembersSplit(printed, values, i);
    ConcatAssoc(Members(printed[..i], values[..i]), Members(printed[i..], values[i..]), TimeText(now));
  }

  lemma TextFromMember(printed: seq<string>, values: seq<Value>, now: int, i: nat)
    requires |printed| == |values| && i < |printed|
    ensures TextFrom(printed, values, now, i) == Member(printed[i], values[i]) + TextFrom(printed, values, now, i + 1)
  {
    assert printed[i..][1..] == printed[i + 1..] && values[i..][1..] == values[i + 1..];
    ConcatAssoc(Member(printed[i], values[i]), Members(printed[i + 1..], values[i + 1..]), TimeText(now));
  }

  lemma ParsePrefix(printed: seq<string>, read: seq<string>, values: seq<Value>, i: nat, text: string)
    requires KindsAgree(printed, values) && AllPlain(values)
    requires i <= |printed| && i <= |read| && printed[..i] == read[..i]
    ensures ParseFields(read, Members(printed[..i], values[..i]) + text, map[])
         == ParseFields(read[i..], text, AsStruct(printed[..i], values[..i], map[]))
  {
    assert read == printed[..i] + read[i..];
    ParseCommon(printed[..i], values[..i], read[i..], text, map[]);
  }

  /** Up to where the lists first differ, reading goes right. */
  lemma ParseToDifference(printed: seq<string>, read: seq<string>, values: seq<Value>, now: int, i: nat)
    requires KindsAgree(printed, values) && AllPlain(values)
    requires i <= |printed| && i <= |read| && printed[..i] == read[..i]
    ensures ParseFields(read, After(RecordText(printed, values, now), 1), map[])
         == ParseFields(read[i..], TextFrom(printed, values, now, i), AsStruct(printed[..i], values[..i], map[]))
  {
    TextSplits(printed, values, now, i);
    ParsePrefix(printed, read, values, i, TextFrom(printed, values, now, i));
  }

  /** The value taken for the first of some distinct names stays. */
  lemma FirstStays(names: seq<string>, text: string, read: Struct)
    requires names != [] && Distinct(names)
    ensures var f, r := ParseField(names[0], text), ParseFields(names, text, read);
            r.Ok? ==> f.Ok? && names[0] in r.value.0 && r.value.0[names[0]] == f.value.0
  {
    var f := ParseField(names[0], text);
    NotAgain(names, 0);
    if f.Ok? {
      OthersAreKept(names[1..], f.value.1, read[names[0] := f.value.0], names[0]);
    }
  }

  lemma ParsedStays(read: seq<string>, hostname: string, s: string, k: string)
    requires k != "Hostname" && k != "Timestamp"
    ensures var f, r := ParseFields(read, After(s, 1), map[]), Parse(read, hostname, s);
            r.Ok? ==> f.Ok? && (k in f.value.0 ==> k in r.value && r.value[k] == f.value.0[k])
  {
  }

  lemma SuffixIsDistinct(names: seq<string>, i: nat)
    requires Distinct(names) && i < |names|
    ensures Distinct(names[i..]) && names[i..][0] == names[i]
  {
    assert forall k :: 0 <= k < |names[i..]| ==> names[i..][k] == names[i + k];
  }

  /** What the reader takes for the name at i, where the lists first differ. */
  lemma ValueAtDifference(printed: seq<string>, read: seq<string>, hostname: string, values: seq<Value>, now: int,
                          i: nat)
    requires KindsAgree(printed, values) && AllPlain(values) && Usable(read)
    requires i < |printed| && i < |read| && printed[..i] == read[..i]
    ensures var f, r := ParseField(read[i], TextFrom(printed, values, now, i)),
                        Parse(read, hostname, RecordText(printed, values, now));
            r.Ok? ==> f.Ok? && read[i] in r.value && r.value[read[i]] == f.value.0
  {
    ParseToDifference(printed, read, values, now, i);
    SuffixIsDistinct(read, i);
    FirstStays(read[i..], TextFrom(printed, values, now, i), AsStruct(printed[..i], values[..i], map[]));
    UsableMeans(read, i);
    ParsedStays(read, hostname, RecordText(printed, values, now), read[i]);
  }

  /** A long value at i, and at j one that is not read as x. */
  function Chosen(printed: seq<string>, i: nat, j: nat, x: PbValue): (values: seq<Value>)
    ensures |values| == |printed|
  {
    seq(|printed|, k requires 0 <= k < |printed| =>
      if k == i then Long(printed[i]) else if k == j then Unlike(printed[j], x) else Short(printed[k]))
  }

  lemma ChosenIsReadable(printed: seq<string>, i: nat, j: nat, x: PbValue, now: int)
    requires i < |printed| && j < |printed| && i != j && TenBytes(now)
    ensures Readable(printed, Chosen(printed, i, j, x), now)
    ensures Chosen(printed, i, j, x)[i] == Long(printed[i]) && AsPb(Chosen(printed, i, j, x)[j]) != x
  {
    LongIsLong(printed[i]);
    UnlikeIsUnlike(printed[j], x);
  }

  /** What a reader takes for a name from a member with a long value, whatever follows. */
  lemma TakenFromLong(name: string, other: string, rest: string)
    requires |name| <= |other| + 10
    ensures var m := Member(other, Long(other));
            var a, b := ParseField(name, m), ParseField(name, m + rest);
            if a.Ok? then b.Ok? && a.value.0 == b.value.0 else b.Err?
  {
    LongIsLong(other);
    MemberEnd(name, other, Long(other));
    ParseWithin(name, Member(other, Long(other)), rest);
  }

  /** Where the lists first differ, at i, the reader takes some value for the field printed[j]; another value there,
      and the record is read wrong. */
  lemma WrongValue(printed: seq<string>, read: seq<string>, hostname: string, now: int, i: nat, j: nat)
    returns (values: seq<Value>)
    requires Usable(printed) && Usable(read) && TenBytes(now)
    requires i < j < |printed| && i < |read| && printed[..i] == read[..i] && read[i] == printed[j]
    ensures Readable(printed, values, now) && !ReadRight(printed, read, hostname, values, now)
  {
    var f := ParseField(read[i], Member(printed[i], Long(printed[i])));
    var x := if f.Ok? then f.value.0 else NumberValue(0);
    values := Chosen(printed, i, j, x);
    ChosenIsReadable(printed, i, j, x, now);
    UsableMeans(printed, i);
    UsableMeans(printed, j);
    TakenFromLong(read[i], printed[i], TextFrom(printed, values, now, i + 1));
    TextFromMember(printed, values, now, i);
    ValueAtDifference(printed, read, hostname, values, now, i);
    NoOrigin(printed);
    IntendedByName(printed, values, hostname, now, j);
  }

  /** Two different lists of the same distinct names: the first place where they differ. */
  lemma {:induction false} FirstDifference(a: seq<string>, b: seq<string>) returns (i: nat)
    requires a != b
    ensures i <= |a| && i <= |b| && a[..i] == b[..i]
    ensures (i == |a| || i == |b|) ==> |a| != |b|
    ensures i < |a| && i < |b| ==> a[i] != b[i]
  {
    if a == [] || b == [] || a[0] != b[0] {
      i := 0;
    } else {
      assert a == [a[0]] + a[1..] && b == [b[0]] + b[1..];
      i := FirstDifference(a[1..], b[1..]);
      i := i + 1;
      assert a[..i] == [a[0]] + a[1..][..i - 1] && b[..i] == [b[0]] + b[1..][..i - 1];
    }
  }

  lemma LaterIn(printed: seq<string>, read: seq<string>, i: nat, j: nat)
    requires Distinct(read) && i < |read| && j < |printed| && i <= |printed| && printed[..i] == read[..i]
    requires printed[j] == read[i] && (i < |printed| ==> printed[i] != read[i])
    ensures i < j
  {
    NotAgain(read, i);
    assert forall k :: 0 <= k < i ==> printed[k] == printed[..i][k];
  }

  function Shorts(printed: seq<string>): (values: seq<Value>)
    ensures |values| == |printed|
  {
    seq(|printed|, k requires 0 <= k < |printed| => Short(printed[k]))
  }

  /** With a name of its own, the other list reads every record wrong. */
  lemma OtherKeyFails(printed: seq<string>, read: seq<string>, hostname: string, now: int, k: string)
    requires (k in printed <==> k !in read) && k != "Hostname" && k != "Timestamp" && TenBytes(now)
    ensures Readable(printed, Shorts(printed), now) && !ReadRight(printed, read, hostname, Shorts(printed), now)
  {
    OtherKeys(printed, read, hostname, Shorts(printed), now, k);
  }

  /** For a list that is not the printed one, there is a readable record that is read wrong. */
  lemma ForeignListFails(printed: seq<string>, read: seq<string>, hostname: string, now: int)
    returns (values: seq<Value>)
    requires Usable(printed) && Usable(read) && read != printed && TenBytes(now)
    ensures Readable(printed, values, now) && !ReadRight(printed, read, hostname, values, now)
  {
    values := Shorts(printed);
    var i := FirstDifference(printed, read);
    if i < |read| {
      UsableMeans(read, i);
      if j :| 0 <= j < |printed| && printed[j] == read[i] {
        LaterIn(printed, read, i, j);
        values := WrongValue(printed, read, hostname, now, i, j);
      } else {
        OtherKeyFails(printed, read, hostname, now, read[i]);
      }
    } else {
      UsableMeans(printed, i);
      assert read == printed[..i];
      NotAgain(printed, i);
      OtherKeyFails(printed, read, hostname, now, printed[i]);
    }
  }

  /** Over all plain values of the printed kinds and all ten-byte times, every record is read right exactly with the
      list it was printed with. */
  lemma OnlyTheSameListReads(printed: seq<string>, read: seq<string>, hostname: string)
    requires Usable(printed) && Usable(read)
    ensures ReadsRight(printed, read, hostname) <==> read == printed
  {
    if read == printed {
      forall values, now | Readable(printed, values, now)
        ensures ReadRight(printed, read, hostname, values, now)
      {
        TenBytesFit(now);
        NoOrigin(printed);
        ParseInvertsPrint(printed, values, hostname, now);
      }
    } else {
      SomeTime();
      var values := ForeignListFails(printed, read, hostname, 1609564925);
    }
  }

  // ---------------------------------------------------------------- csv and jsonl rows with another list

  /** The names have the same lengths, one by one: all that a row depends on. */
  predicate SameWidths(a: seq<string>, b: seq<string>) {
    |a| == |b| && forall i :: 0 <= i < |a| ==> |a[i]| == |b[i]|
  }

  /** Every readable record printed with one list gives its values in a row that is cut out with the other. */
  ghost predicate RowsRight(printed: seq<string>, read: seq<string>) {
    forall values, now :: Readable(printed, values, now) ==> RowRight(printed, read, values, now)
  }

  predicate RowRight(printed: seq<string>, read: seq<string>, values: seq<Value>, now: int)
    requires |printed| == |values|
  {
    Row(read, RecordText(printed, values, now)) == ValuesText(values) + FormatInt(now)
  }

  lemma PlainIsCommaFree(values: seq<Value>)
    requires AllPlain(values)
    ensures CommaFree(values)
  {
    forall i | 0 <= i < |values|
      ensures ',' !in ValueText(values[i])
    {
      NoCommaInPlain(values[i]);
    }
  }

  lemma {:induction false} RowByWidths(a: seq<string>, b: seq<string>, s: string)
    requires SameWidths(a, b)
    ensures RowFields(a, s) == RowFields(b, s)
  {
    if a != [] {
      var t := After(s, |a[0]| + 3);
      RowByWidths(a[1..], b[1..], After(t, |Line(t, ',')|));
    }
  }

  lemma {:induction false} RowSplits(a: seq<string>, b: seq<string>, s: string)
    ensures var (first, rest) := RowFields(a, s);
            RowFields(a + b, s) == (first + RowFields(b, rest).0, RowFields(b, rest).1)
  {
    if a == [] {
      assert a + b == b;
      assert "" + RowFields(b, s).0 == RowFields(b, s).0;
    } else {
      assert (a + b)[1..] == a[1..] + b;
      var t := After(s, |a[0]| + 3);
      var v := Line(t, ',');
      var (first, rest) := RowFields(a[1..], After(t, |v|));
      RowSplits(a[1..], b, After(t, |v|));
      ConcatAssoc(v, first, RowFields(b, rest).0);
    }
  }

  /** A row from some text on. */
  function RowFrom(read: seq<string>, s: string): string {
    var (fields, rest) := RowFields(read, s);
    fields + Front(After(rest, 12), 10)
  }

  lemma {:induction false} ValuesSplit(a: seq<Value>, b: seq<Value>)
    ensures ValuesText(a + b) == ValuesText(a) + ValuesText(b)
  {
    if a == [] {
      assert a + b == b;
    } else {
      assert (a + b)[1..] == a[1..] + b;
      ValuesSplit(a[1..], b);
      ConcatAssoc(ValueText(a[0]) + ",", ValuesText(a[1..]), ValuesText(b));
    }
  }

  lemma RowFromSplits(a: seq<string>, b: seq<string>, s: string)
    ensures RowFrom(a + b, s) == RowFields(a, s).0 + RowFrom(b, RowFields(a, s).1)
  {
    RowSplits(a, b, s);
    var (fields, rest) := RowFields(b, RowFields(a, s).1);
    ConcatAssoc(RowFields(a, s).0, fields, Front(After(rest, 12), 10));
  }

  lemma ExpectedOfParts(a: seq<Value>, b: seq<Value>, last: string)
    ensures ValuesText(a + b) + last == ValuesText(a) + (ValuesText(b) + last)
  {
    ValuesSplit(a, b);
    ConcatAssoc(ValuesText(a), ValuesText(b), last);
  }

  lemma ExpectedSplits(values: seq<Value>, last: string, i: nat)
    requires i <= |values|
    ensures ValuesText(values) + last == ValuesText(values[..i]) + (ValuesText(values[i..]) + last)
  {
    assert values[..i] + values[i..] == values;
    ExpectedOfParts(values[..i], values[i..], last);
  }

  lemma RowOfCommon(printed: seq<string>, read: seq<string>, values: seq<Value>, text: string)
    requires SameWidths(printed, read) && |printed| == |values| && AllPlain(values)
    ensures RowFields(read, Members(printed, values) + text) == (ValuesText(values), text)
  {
    PlainIsCommaFree(values);
    RowByWidths(read, printed, Members(printed, values) + text);
    RowOfCommaFree(printed, values, text);
  }

  lemma RowSplitsAt(printed: seq<string>, read: seq<string>, values: seq<Value>, now: int, i: nat)
    requires Readable(printed, values, now) && i <= |printed| && i <= |read| && SameWidths(printed[..i], read[..i])
    ensures Row(read, RecordText(printed, values, now))
         == ValuesText(values[..i]) + RowFrom(read[i..], TextFrom(printed, values, now, i))
  {
    TextSplits(printed, values, now, i);
    RowOfCommon(printed[..i], read[..i], values[..i], TextFrom(printed, values, now, i));
    assert read[..i] + read[i..] == read;
    RowFromSplits(read[..i], read[i..], After(RecordText(printed, values, now), 1));
  }

  /** Where the widths first differ, at i, the rest of the row alone decides. */
  lemma RowToDifference(printed: seq<string>, read: seq<string>, values: seq<Value>, now: int, i: nat)
    requires Readable(printed, values, now) && i <= |printed| && i <= |read| && SameWidths(printed[..i], read[..i])
    ensures RowRight(printed, read, values, now)
       <==> RowFrom(read[i..], TextFrom(printed, values, now, i)) == ValuesText(values[i..]) + FormatInt(now)
  {
    RowSplitsAt(printed, read, values, now, i);
    ExpectedSplits(values, FormatInt(now), i);
    SamePrefix(ValuesText(values[..i]), RowFrom(read[i..], TextFrom(printed, values, now, i)),
               ValuesText(values[i..]) + FormatInt(now));
  }

  lemma SamePrefix(p: string, a: string, b: string)
    ensures p + a == p + b <==> a == b
  {
    assert (p + a)[|p|..] == a && (p + b)[|p|..] == b;
  }

  lemma FirstCommasDiffer(a: string, more: string, b: string, other: string)
    requires ',' !in a && ',' !in b && |a| != |b|
    ensures a + "," + more != b + "," + other
  {
    var x, y := a + "," + more, b + "," + other;
    assert x[|a|] == ',' && y[|b|] == ',';
    assert |a| < |b| ==> y[|a|] == b[|a|];
    assert |b| < |a| ==> x[|b|] == a[|b|];
  }

  /** The line cut out of a member with a long value, for a name of another length. */
  lemma LineOfLong(name: string, other: string, rest: string) returns (l: string)
    requires |name| <= |other| + 10 && |name| != |other| && ',' !in other
    ensures Line(After(Member(other, Long(other)) + rest, |name| + 3), ',') == l + ","
    ensures ',' !in l && |l| != |ValueText(Long(other))|
  {
    var m, v := Member(other, Long(other)), ValueText(Long(other));
    var before := "\"" + other + "\":" + v;
    var k := |name| + 3;
    LongIsLong(other);
    assert m == before + "," && ',' !in before;
    l := before[k..];
    assert After(m + rest, k) == l + "," + rest;
    assert forall i :: 0 <= i < |l| ==> l[i] == before[k + i];
    LineOfTerminated(l, ',', rest);
  }

  lemma RowFromHead(read: seq<string>, s: string, l: string) returns (more: string)
    requires read != [] && Line(After(s, |read[0]| + 3), ',') == l + ","
    ensures RowFrom(read, s) == l + "," + more
  {
    var t := After(s, |read[0]| + 3);
    var (fields, rest) := RowFields(read[1..], After(t, |l + ","|));
    more := fields + Front(After(rest, 12), 10);
    ConcatAssoc(l + ",", fields, Front(After(rest, 12), 10));
  }

  lemma OtherWidthFails(read: seq<string>, other: string, rest: string, expected: string)
    requires read != [] && |read[0]| != |other| && |read[0]| <= |other| + 10 && ',' !in other
    ensures RowFrom(read, Member(other, Long(other)) + rest) != ValueText(Long(other)) + "," + expected
  {
    var l := LineOfLong(read[0], other, rest);
    var more := RowFromHead(read, Member(other, Long(other)) + rest, l);
    LongIsLong(other);
    FirstCommasDiffer(l, more, ValueText(Long(other)), expected);
  }

  lemma {:induction false} RowOfNothing(names: seq<string>)
    ensures RowFields(names, "") == ("", "")
  {
    if names != [] {
      RowOfNothing(names[1..]);
      assert After("", |names[0]| + 3) == "" && Line("", ',') == "" && After("", 0) == "";
      assert "" + "" == "";
    }
  }

  /** One name too many eats up the time. */
  lemma TooManyNames(read: seq<string>, now: int)
    requires read != [] && TenBytes(now)
    ensures RowFrom(read, TimeText(now)) != FormatInt(now)
  {
    var s := TimeText(now);
    var t := After(s, |read[0]| + 3);
    DigitsHaveNoComma(now);
    assert ',' !in TIMESTAMP_KEY && ',' !in s;
    assert forall i :: 0 <= i < |t| ==> t[i] == s[|read[0]| + 3 + i];
    LineIsPrefix(t, ',');
    assert Line(t, ',') == t && After(t, |t|) == "";
    RowOfNothing(read[1..]);
    assert t + "" == t && After("", 12) == "" && Front("", 10) == "";
    assert RowFrom(read, s) == t;
    assert s[|s| - 1] == '}' && (t != "" ==> t[|t| - 1] == '}');
    NoBrace(now);
  }

  lemma NoBrace(now: int)
    ensures FormatInt(now) != "" && FormatInt(now)[|FormatInt(now)| - 1] != '}'
  {
    FormatUintIsDigits(if now < 0 then -now else now);
  }

  lemma UsableNameHasNoComma(names: seq<string>, i: nat)
    requires Usable(names) && i < |names|
    ensures ',' !in names[i]
  {
    NamesAreWords(names[i]);
    assert !Letter(',');
  }

  /** For a list of other widths, there is a readable record whose row comes out wrong. */
  lemma OtherWidthsFail(printed: seq<string>, read: seq<string>) returns (values: seq<Value>, now: int)
    requires Usable(printed) && Usable(read) && !SameWidths(printed, read)
    ensures Readable(printed, values, now) && !RowRight(printed, read, values, now)
  {
    now := 1609564925;
    SomeTime();
    values := seq(|printed|, k requires 0 <= k < |printed| => Long(printed[k]));
    forall k | 0 <= k < |printed|
      ensures Plain(values[k]) && (values[k].Str? <==> IsString(printed[k]))
    {
      LongIsLong(printed[k]);
    }
    var i := FirstWidth(printed, read);
    RowToDifference(printed, read, values, now, i);
    RestIsWrong(printed, read, values, now, i);
  }

  lemma {:induction false} FirstWidth(a: seq<string>, b: seq<string>) returns (i: nat)
    requires !SameWidths(a, b)
    ensures i <= |a| && i <= |b| && SameWidths(a[..i], b[..i]) && (i < |a| || i < |b|)
    ensures i < |a| && i < |b| ==> |a[i]| != |b[i]|
  {
    if a == [] || b == [] || |a[0]| != |b[0]| {
      i := 0;
    } else {
      i := FirstWidth(a[1..], b[1..]);
      i := i + 1;
      forall k | 0 <= k < i
        ensures |a[..i][k]| == |b[..i][k]|
      {
        assert k > 0 ==> a[..i][k] == a[1..][..i - 1][k - 1] && b[..i][k] == b[1..][..i - 1][k - 1];
      }
    }
  }

  lemma RestIsWrong(printed: seq<string>, read: seq<string>, values: seq<Value>, now: int, i: nat)
    requires Usable(printed) && Usable(read) && |values| == |printed| && TenBytes(now)
    requires forall k :: 0 <= k < |printed| ==> values[k] == Long(printed[k])
    requires i <= |printed| && i <= |read| && (i < |printed| || i < |read|)
    requires i < |printed| && i < |read| ==> |printed[i]| != |read[i]|
    ensures RowFrom(read[i..], TextFrom(printed, values, now, i)) != ValuesText(values[i..]) + FormatInt(now)
  {
    if i == |printed| {
      assert Members(printed[i..], values[i..]) + TimeText(now) == TimeText(now);
      assert "" + FormatInt(now) == FormatInt(now);
      TooManyNames(read[i..], now);
    } else {
      var v := ValueText(values[i]);
      TextFromMember(printed, values, now, i);
      assert values[i..][1..] == values[i + 1..];
      ConcatAssoc(v + ",", ValuesText(values[i + 1..]), FormatInt(now));
      if i == |read| {
        var text := TextFrom(printed, values, now, i);
        assert RowFrom([], text) == "" + Front(After(text, 12), 10);
      } else {
        UsableMeans(printed, i);
        UsableMeans(read, i);
        UsableNameHasNoComma(printed, i);
        OtherWidthFails(read[i..], printed[i], TextFrom(printed, values, now, i + 1),
                        ValuesText(values[i + 1..]) + FormatInt(now));
      }
    }
  }

  /** Rows come out right, over all readable records, exactly when the names of the two lists have the same lengths. */
  lemma OnlySameWidthsGiveRows(printed: seq<string>, read: seq<string>)
    requires Usable(printed) && Usable(read)
    ensures RowsRight(printed, read) <==> SameWidths(printed, read)
  {
    if SameWidths(printed, read) {
      forall values, now | Readable(printed, values, now)
        ensures RowRight(printed, read, values, now)
      {
        PlainIsCommaFree(values);
        RowByWidths(printed, read, After(RecordText(printed, values, now), 1));
        RowIsTheValues(printed, values, now);
      }
    } else {
      var values, now := OtherWidthsFail(printed, read);
    }
  }

  /** So a csv file has every value under its own field's name, over all readable records, exactly when the two lists
      are the same, and not empty. */
  lemma OnlyTheSameListLabels(printed: seq<string>, read: seq<string>)
    requires Usable(printed) && Usable(read)
    ensures Columns(Header(read)) == printed + ["timestamp"] && RowsRight(printed, read)
       <==> read == printed && printed != []
  {
    forall i | 0 <= i < |read|
      ensures ',' !in read[i]
    {
      UsableNameHasNoComma(read, i);
    }
    HeaderColumns(read);
    OnlySameWidthsGiveRows(printed, read);
    var labels := if read == [] then [""] else read;
    assert (labels + ["timestamp"])[..|labels|] == labels && (printed + ["timestamp"])[..|printed|] == printed;
    if printed != [] {
      UsableMeans(printed, 0);
    }
  }

  // ---------------------------------------------------------------- one channel and one consumer for each egress

  /** A tracepoint's egress and field template, as configured. */
  datatype Route = Route(egress: string, template: string)

  /** The template that the consumer of an egress reads with: that of the first tracepoint naming it. */
  function FirstTemplate(routes: seq<Route>, egress: string): Option<string> {
    if routes == [] then None
    else if routes[0].egress == egress then Some(routes[0].template)
    else FirstTemplate(routes[1..], egress)
  }

  /** The loop over the tracepoints that makes the channels. */
  method Wire(routes: seq<Route>) returns (consumers: map<string, string>)
    ensures forall e :: e in consumers <==> FirstTemplate(routes, e).Some?
    ensures forall e :: e in consumers ==> consumers[e] == FirstTemplate(routes, e).value
    ensures forall i :: 0 <= i < |routes| && (forall k :: 0 <= k < i ==> routes[k].egress != routes[i].egress) ==>
              routes[i].egress in consumers && consumers[routes[i].egress] == routes[i].template
  {
    consumers := map[];
    assert routes[0..] == routes;
    for i := 0 to |routes|
      invariant forall e :: FirstTemplate(routes, e)
                  == if e in consumers then Some(consumers[e]) else FirstTemplate(routes[i..], e)
    {
      assert routes[i..][0] == routes[i] && routes[i..][1..] == routes[i + 1..];
      if routes[i].egress in consumers {
        continue;
      }
      consumers := consumers[routes[i].egress := routes[i].template];
    }
    forall i | 0 <= i < |routes| && forall k :: 0 <= k < i ==> routes[k].egress != routes[i].egress
      ensures FirstTemplate(routes, routes[i].egress) == Some(routes[i].template)
    {
      var j := FirstTemplateIsSomeones(routes, i);
    }
  }

  lemma {:induction false} FirstTemplateIsSomeones(routes: seq<Route>, i: nat) returns (j: nat)
    requires i < |routes|
    ensures j <= i && routes[j].egress == routes[i].egress
    ensures FirstTemplate(routes, routes[i].egress) == Some(routes[j].template)
  {
    if routes[0].egress == routes[i].egress {
      j := 0;
    } else {
      j := FirstTemplateIsSomeones(routes[1..], i - 1);
      j := j + 1;
    }
  }

  /** The configured templates, validated: each is a list of distinct fields of the table. */
  predicate Configured(fields: map<string, seq<ConfigField>>, routes: seq<Route>) {
    forall i :: 0 <= i < |routes| ==> routes[i].template in fields && Usable(NamesOf(fields[routes[i].template]))
  }

  /** The list that tracepoint i prints with, and the one that its records are read with. */
  function Printed(fields: map<string, seq<ConfigField>>, routes: seq<Route>, i: nat): seq<string>
    requires Configured(fields, routes) && i < |routes|
  {
    NamesOf(fields[routes[i].template])
  }

  function ReadWith(fields: map<string, seq<ConfigField>>, routes: seq<Route>, i: nat): seq<string>
    requires Configured(fields, routes) && i < |routes|
  {
    var t := FirstTemplate(routes, routes[i].egress);
    if t.Some? && t.value in fields then NamesOf(fields[t.value]) else []
  }

  lemma ReadWithSomeones(fields: map<string, seq<ConfigField>>, routes: seq<Route>, i: nat) returns (j: nat)
    requires Configured(fields, routes) && i < |routes|
    ensures j < |routes| && routes[j].egress == routes[i].egress
    ensures ReadWith(fields, routes, i) == Printed(fields, routes, j)
    ensures forall k :: 0 <= k < |routes| && routes[k].egress == routes[i].egress ==>
              ReadWith(fields, routes, k) == ReadWith(fields, routes, i)
  {
    j := FirstTemplateIsSomeones(routes, i);
  }

  ghost predicate Shares(routes: seq<Route>, i: nat, j: nat) {
    i < |routes| && j < |routes| && routes[i].egress == routes[j].egress
  }

  /** What tracepoint i is read with is somebody's list, and the same for all who share its egress. */
  lemma OneReader(fields: map<string, seq<ConfigField>>, routes: seq<Route>, i: nat)
    requires Configured(fields, routes) && i < |routes|
    ensures exists j :: Shares(routes, i, j) && ReadWith(fields, routes, i) == Printed(fields, routes, j)
    ensures forall k :: Shares(routes, i, k) ==> ReadWith(fields, routes, k) == ReadWith(fields, routes, i)
  {
    var j := ReadWithSomeones(fields, routes, i);
    assert Shares(routes, i, j);
  }

  lemma AllTheSame(fields: map<string, seq<ConfigField>>, routes: seq<Route>)
    requires Configured(fields, routes)
    ensures (forall i :: 0 <= i < |routes| ==> ReadWith(fields, routes, i) == Printed(fields, routes, i))
       <==> (forall i, j :: Shares(routes, i, j) ==> Printed(fields, routes, i) == Printed(fields, routes, j))
  {
    forall i | 0 <= i < |routes|
      ensures exists j :: Shares(routes, i, j) && ReadWith(fields, routes, i) == Printed(fields, routes, j)
      ensures forall k :: Shares(routes, i, k) ==> ReadWith(fields, routes, k) == ReadWith(fields, routes, i)
    {
      OneReader(fields, routes, i);
    }
  }

  lemma WidthsJoin(a: seq<string>, b: seq<string>, c: seq<string>)
    requires SameWidths(a, b) && SameWidths(c, b)
    ensures SameWidths(a, c)
  {
  }

  lemma AllTheSameWidths(fields: map<string, seq<ConfigField>>, routes: seq<Route>)
    requires Configured(fields, routes)
    ensures (forall i :: 0 <= i < |routes| ==> SameWidths(Printed(fields, routes, i), ReadWith(fields, routes, i)))
       <==> (forall i, j :: Shares(routes, i, j) ==> SameWidths(Printed(fields, routes, i), Printed(fields, routes, j)))
  {
    if forall i :: 0 <= i < |routes| ==> SameWidths(Printed(fields, routes, i), ReadWith(fields, routes, i)) {
      forall i, j | Shares(routes, i, j)
        ensures SameWidths(Printed(fields, routes, i), Printed(fields, routes, j))
      {
        OneReader(fields, routes, i);
        WidthsJoin(Printed(fields, routes, i), ReadWith(fields, routes, i), Printed(fields, routes, j));
      }
    } else {
      var i :| 0 <= i < |routes| && !SameWidths(Printed(fields, routes, i), ReadWith(fields, routes, i));
      OneReader(fields, routes, i);
    }
  }

  /** Every readable record of every tracepoint is read right by the struct parser of its egress, if and only if
      tracepoints that share an egress have the same list of fields. */
  lemma SharedEgressNeedsOneList(fields: map<string, seq<ConfigField>>, routes: seq<Route>, hostname: string)
    requires Configured(fields, routes)
    ensures (forall i :: 0 <= i < |routes| ==>
               ReadsRight(Printed(fields, routes, i), ReadWith(fields, routes, i), hostname))
       <==> (forall i, j :: Shares(routes, i, j) ==> Printed(fields, routes, i) == Printed(fields, routes, j))
  {
    AllTheSame(fields, routes);
    forall i | 0 <= i < |routes|
      ensures ReadsRight(Printed(fields, routes, i), ReadWith(fields, routes, i), hostname)
         <==> ReadWith(fields, routes, i) == Printed(fields, routes, i)
    {
      var j := ReadWithSomeones(fields, routes, i);
      OnlyTheSameListReads(Printed(fields, routes, i), ReadWith(fields, routes, i), hostname);
    }
  }

  /** Every readable record of every tracepoint gives its values in the rows of its csv or jsonl egress, if and only
      if the field names of tracepoints that share an egress have the same lengths, one by one. */
  lemma SharedFileNeedsWidths(fields: map<string, seq<ConfigField>>, routes: seq<Route>)
    requires Configured(fields, routes)
    ensures (forall i :: 0 <= i < |routes| ==> RowsRight(Printed(fields, routes, i), ReadWith(fields, routes, i)))
       <==> (forall i, j :: Shares(routes, i, j) ==> SameWidths(Printed(fields, routes, i), Printed(fields, routes, j)))
  {
    AllTheSameWidths(fields, routes);
    forall i | 0 <= i < |routes|
      ensures RowsRight(Printed(fields, routes, i), ReadWith(fields, routes, i))
         <==> SameWidths(Printed(fields, routes, i), ReadWith(fields, routes, i))
    {
      var j := ReadWithSomeones(fields, routes, i);
      OnlySameWidthsGiveRows(Printed(fields, routes, i), ReadWith(fields, routes, i));
    }
  }
}
