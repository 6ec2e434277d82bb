/** The text egresses (egress/csv/csv.go, egress/jsonl/jsonl.go): rows cut out of printed records by position. */
module Egress {
  import opened Text
  import opened Buffers
  import opened Decoding

  // ---------------------------------------------------------------- what a row takes from a buffer

  /** For each field, its value through the comma; `rest` is what follows the last. */
  function RowFields(names: seq<string>, s: string): (r: (string, string)) {
    if names == [] then ("", s)
    else
      var t := After(s, |names[0]| + 3);
      var v := Line(t, ',');
      var (more, rest) := RowFields(names[1..], After(t, |v|));
      (v + more, rest)
  }

  function Row(names: seq<string>, s: string): string {
    var (fields, rest) := RowFields(names, After(s, 1));
    fields + Front(After(rest, 12), 10)
  }

  function Join(names: seq<string>, sep: string): string {
    if names == [] then "" else if |names| == 1 then names[0] else names[0] + sep + Join(names[1..], sep)
  }

  function Header(names: seq<string>): string {
    Join(names, ",") + ",timestamp"
  }

  /** The csv and jsonl types hold the same fields and copy the same values; they differ in what they put around them.
      */
  class RowWriter {
    var fieldsLen: seq<nat>
    var fieldsName: seq<string>
    var file: string
    const buffer: Buffer

    ghost predicate Valid()
      reads this
    {
      |fieldsLen| == |fieldsName| && forall i :: 0 <= i < |fieldsLen| ==> fieldsLen[i] == |fieldsName[i]| + 3
    }

    constructor (fields: seq<string>)
      ensures Valid() && fieldsName == fields && file == "" && fresh(buffer) && buffer.unread == ""
    {
      fieldsLen, fieldsName, file := [], [], "";
      buffer := new Buffer();
      new;
      for i := 0 to |fields|
        invariant Valid() && fieldsName == fields[..i] && file == "" && fresh(buffer) && buffer.unread == ""
      {
        fieldsLen := fieldsLen + [|fields[i]| + 3];
        fieldsName := fieldsName + [fields[i]];
      }
    }

    method MarshalFields(buf: Buffer)
      requires Valid() && buf != buffer
      modifies buf, buffer
      ensures buffer.unread == old(buffer.unread) + RowFields(fieldsName, old(buf.unread)).0
      ensures buf.unread == RowFields(fieldsName, old(buf.unread)).1
    {
      ghost var row := RowFields(fieldsName, buf.unread);
      ghost var before := buffer.unread;
      ghost var written := "";
      assert written + row.0 == row.0 && fieldsName[0..] == fieldsName;
      for i := 0 to |fieldsLen|
        invariant row == (written + RowFields(fieldsName[i..], buf.unread).0, RowFields(fieldsName[i..], buf.unread).1)
        invariant buffer.unread == before + written
      {
        ghost var names := fieldsName[i..];
        assert names[0] == fieldsName[i] && names[1..] == fieldsName[i + 1..];
        var _ := buf.Next(fieldsLen[i]);
        var v, _ := buf.ReadBytes(',');
        buffer.Write(v);
        ConcatAssoc(written, v, RowFields(fieldsName[i + 1..], buf.unread).0);
        ConcatAssoc(before, written, v);
        written := written + v;
      }
      assert written + "" == written;
    }

    method MarshalCsv(buf: Buffer)
      requires Valid() && buf != buffer
      modifies buf, buffer
      ensures buffer.unread == old(buffer.unread) + Row(fieldsName, old(buf.unread))
    {
      var _ := buf.Next(1);
      MarshalFields(buf);
      var _ := buf.Next(12);
      var time := buf.Next(10);
      buffer.Write(time);
      ConcatAssoc(old(buffer.unread), RowFields(fieldsName, After(old(buf.unread), 1)).0, time);
    }

    /** Whatever is in the buffer, a jsonl row is the csv row in brackets. */
    method MarshalJsonl(buf: Buffer)
      requires Valid() && buf != buffer
      modifies buf, buffer
      ensures buffer.unread == old(buffer.unread) + ("[" + Row(fieldsName, old(buf.unread)) + "]")
    {
      var _ := buf.Next(1);
      buffer.Write("[");
      ghost var start := buffer.unread;
      MarshalFields(buf);
      var _ := buf.Next(12);
      var time := buf.Next(10);
      buffer.Write(time);
      buffer.Write("]");
      ghost var fields := RowFields(fieldsName, After(old(buf.unread), 1)).0;
      ConcatAssoc(start, fields, time);
      ConcatAssoc(old(buffer.unread), "[", fields + time);
      ConcatAssoc(old(buffer.unread), "[" + (fields + time), "]");
    }

    /** Cut at its commas, the header is the names and then the time's column, unless there are no names. */
    method HeaderCsv()
      requires Valid()
      modifies buffer
      ensures old(buffer.unread) <= buffer.unread
      ensures (forall i :: 0 <= i < |fieldsName| ==> ',' !in fieldsName[i]) ==>
                Columns(buffer.unread[|old(buffer.unread)|..])
                == (if fieldsName == [] then [""] else fieldsName) + ["timestamp"]
    {
      ghost var before := buffer.unread;
      buffer.Write(Join(fieldsName, ",") + ",timestamp");
      assert buffer.unread[|before|..] == Header(fieldsName);
      if forall i :: 0 <= i < |fieldsName| ==> ',' !in fieldsName[i] {
        HeaderColumns(fieldsName);
      }
    }

    method Flush()
      modifies this`file, buffer
      ensures file == old(file) + (old(buffer.unread) + "\n") && buffer.unread == ""
    {
      buffer.Write("\n");
      file := file + buffer.unread;
      buffer.Reset();
    }

    /** One turn of the csv loop: one line for one record. */
    method ConsumeCsv(buf: Buffer)
      requires Valid() && buf != buffer && buffer.unread == ""
      modifies this`file, buf, buffer
      ensures file == old(file) + (Row(fieldsName, old(buf.unread)) + "\n") && buffer.unread == ""
    {
      MarshalCsv(buf);
      assert "" + Row(fieldsName, old(buf.unread)) == Row(fieldsName, old(buf.unread));
      Flush();
    }
  }

  // ---------------------------------------------------------------- rows of printed records

  /** The values in order, each with a comma after it. */
  function ValuesText(values: seq<Value>): string {
    if values == [] then "" else ValueText(values[0]) + "," + ValuesText(values[1..])
  }

  predicate CommaFree(values: seq<Value>) {
    forall i :: 0 <= i < |values| ==> ',' !in ValueText(values[i])
  }

  lemma {:induction false} RowOfCommaFree(names: seq<string>, values: seq<Value>, rest: string)
    requires |names| == |values| && CommaFree(values)
    ensures RowFields(names, Members(names, values) + rest) == (ValuesText(values), rest)
  {
    if names == [] {
      assert Members(names, values) + rest == rest;
    } else {
      var tail := Members(names[1..], values[1..]) + rest;
      ConcatAssoc(Member(names[0], values[0]), Members(names[1..], values[1..]), rest);
      AfterKey(names[0], values[0], tail);
      LineOfTerminated(ValueText(values[0]), ',', tail);
      assert After(ValueText(values[0]) + "," + tail, |ValueText(values[0])| + 1) == tail;
      RowOfCommaFree(names[1..], values[1..], rest);
    }
  }

  /** A row has at most one comma for each field, whatever the buffer holds. */
  lemma {:induction false} RowHasFewCommas(names: seq<string>, s: string)
    ensures Count(RowFields(names, s).0, ',') <= |names|
  {
    if names != [] {
      var t := After(s, |names[0]| + 3);
      var v := Line(t, ',');
      CountOfLine(t, ',');
      RowHasFewCommas(names[1..], After(t, |v|));
      CountConcat(v, RowFields(names[1..], After(t, |v|)).0, ',');
    }
  }

  lemma {:induction false} ValuesHaveManyCommas(values: seq<Value>)
    ensures Count(ValuesText(values), ',') >= |values|
    ensures Count(ValuesText(values), ',') == |values| <==> CommaFree(values)
  {
    if values != [] {
      var v := ValueText(values[0]);
      ValuesHaveManyCommas(values[1..]);
      CountConcat(v + ",", ValuesText(values[1..]), ',');
      CountConcat(v, ",", ',');
      CountZero(v, ',');
      assert CommaFree(values) <==> ',' !in v && CommaFree(values[1..]) by {
        if ',' !in v && CommaFree(values[1..]) {
          forall i | 0 <= i < |values|
            ensures ',' !in ValueText(values[i])
          {
            assert i > 0 ==> values[i] == values[1..][i - 1];
          }
        } else if CommaFree(values) {
          forall i | 0 <= i < |values| - 1
            ensures ',' !in ValueText(values[1..][i])
          {
            assert values[1..][i] == values[i + 1];
          }
        }
      }
    }
  }

  lemma DigitsHaveNoComma(now: int)
    ensures ',' !in FormatInt(now) && |FormatInt(now)| >= 1
  {
    FormatUintIsDigits(if now < 0 then -now else now);
  }

  /** The row of a record without commas: the values, and the ten bytes after the time's key. */
  lemma RowOfCommaFreeRecord(names: seq<string>, values: seq<Value>, now: int)
    requires |names| == |values| && CommaFree(values)
    ensures Row(names, RecordText(names, values, now)) == ValuesText(values) + Front(FormatInt(now) + "}", 10)
  {
    RecordBody(names, values, now);
    RowOfCommaFree(names, values, TimeText(now));
    AfterTimeKey(now);
  }

  // Where a row ends in the record.

  /** How much of a record's text the keys take. */
  function KeysLength(names: seq<string>): nat {
    if names == [] then 0 else |names[0]| + 3 + KeysLength(names[1..])
  }

  lemma AfterAfter(s: string, a: nat, b: nat)
    ensures After(After(s, a), b) == After(s, a + b)
  {
  }

  lemma ThreeSteps(s: string, a: nat, b: nat, c: nat)
    ensures After(After(After(s, a), b), c) == After(s, a + b + c)
  {
    AfterAfter(s, a, b);
    AfterAfter(s, a + b, c);
  }

  lemma RowStep(names: seq<string>, s: string, v: string, left: string)
    requires names != [] && v == Line(After(s, |names[0]| + 3), ',') && left == After(After(s, |names[0]| + 3), |v|)
    ensures RowFields(names, s) == (v + RowFields(names[1..], left).0, RowFields(names[1..], left).1)
  {
  }

  lemma OneFieldFurther(s: string, k: nat, v: string, left: string, keys: nat, more: string)
    requires left == After(After(s, k), |v|)
    ensures After(left, keys + |more|) == After(s, k + keys + |v + more|)
  {
    ThreeSteps(s, k, |v|, keys + |more|);
  }

  /** What a row copies and the keys it skips bring the reader to where it stands. */
  lemma {:induction false} RowPosition(names: seq<string>, s: string)
    ensures RowFields(names, s).1 == After(s, KeysLength(names) + |RowFields(names, s).0|)
  {
    if names == [] {
      assert After(s, 0) == s;
    } else {
      var k, others := |names[0]| + 3, names[1..];
      var v := Line(After(s, k), ',');
      var left := After(After(s, k), |v|);
      var more := RowFields(others, left).0;
      RowStep(names, s, v, left);
      RowPosition(others, left);
      OneFieldFurther(s, k, v, left, KeysLength(others), more);
    }
  }

  lemma {:induction false} MembersLength(names: seq<string>, values: seq<Value>)
    requires |names| == |values|
    ensures |Members(names, values)| == KeysLength(names) + |ValuesText(values)|
  {
    if names != [] {
      MembersLength(names[1..], values[1..]);
    }
  }

  lemma {:induction false} ValuesEndInComma(values: seq<Value>)
    requires values != []
    ensures var v := ValuesText(values); v != "" && v[|v| - 1] == ','
  {
    if |values| > 1 {
      ValuesEndInComma(values[1..]);
    } else {
      assert values[1..] == [] && ValuesText(values[1..]) == "";
    }
  }

  /** The members and the time of a record. */
  function Body(names: seq<string>, values: seq<Value>, now: int): string
    requires |names| == |values|
  {
    Members(names, values) + TimeText(now)
  }

  /** Where the ten bytes that a row takes for the time begin. */
  function TailStart(names: seq<string>, s: string): nat {
    KeysLength(names) + |RowFields(names, s).0| + 12
  }

  lemma RowOfBody(names: seq<string>, text: string, taken: (string, string))
    requires taken == RowFields(names, After(text, 1))
    ensures Row(names, text) == taken.0 + Front(After(taken.1, 12), 10)
  {
  }

  lemma FurtherTen(s: string, p: nat, fields: string, rest: string)
    requires rest == After(s, p)
    ensures fields + Front(After(rest, 12), 10) == fields + Front(After(s, p + 12), 10)
  {
    AfterAfter(s, p, 12);
  }

  lemma TailOfText(names: seq<string>, text: string, s: string, taken: (string, string), p: nat)
    requires s == After(text, 1) && taken == RowFields(names, s) && taken.1 == After(s, p)
    ensures Row(names, text) == taken.0 + Front(After(s, p + 12), 10)
  {
    RowOfBody(names, text, taken);
    FurtherTen(s, p, taken.0, taken.1);
  }

  lemma RowOfText(names: seq<string>, text: string, s: string)
    requires s == After(text, 1)
    ensures Row(names, text) == RowFields(names, s).0 + Front(After(s, TailStart(names, s)), 10)
  {
    var taken := RowFields(names, s);
    RowPosition(names, s);
    TailOfText(names, text, s, taken, TailStart(names, s) - 12);
  }

  lemma TailOfRow(names: seq<string>, values: seq<Value>, now: int)
    requires |names| == |values|
    ensures var s := Body(names, values, now);
            Row(names, RecordText(names, values, now))
            == RowFields(names, s).0 + Front(After(s, TailStart(names, s)), 10)
  {
    var s := Body(names, values, now);
    RecordBody(names, values, now);
    RowOfText(names, RecordText(names, values, now), s);
  }

  /** If a row had the right length, it would end just before the record's closing brace. */
  lemma TailEndsBeforeBrace(names: seq<string>, values: seq<Value>, now: int, p: nat, fields: string, tail: string)
    requires |names| == |values| && p == KeysLength(names) + |fields| + 12
    requires tail == Front(After(Body(names, values, now), p), 10)
    requires |fields| + |tail| == |ValuesText(values)| + |FormatInt(now)|
    ensures var s := Body(names, values, now); p + |tail| == |s| - 1 && tail == s[p..|s| - 1]
  {
    MembersLength(names, values);
    assert |TimeText(now)| == 12 + |FormatInt(now)| + 1;
  }

  /** Before the digits of the time there is a colon. */
  lemma ColonBeforeTime(members: string, now: int)
    ensures var s := members + TimeText(now);
            |s| >= |FormatInt(now)| + 2 && s[|s| - 2 - |FormatInt(now)|] == ':'
  {
    var s := members + TimeText(now);
    assert TimeText(now)[11] == TIMESTAMP_KEY[11] == ':';
    assert s[|members| + 11] == TimeText(now)[11];
  }

  /** A tail longer than the time has a colon where the row should have a comma. */
  lemma ColonOrComma(names: seq<string>, values: seq<Value>, now: int, p: nat, fields: string, tail: string)
    requires |names| == |values| && values != [] && p == KeysLength(names) + |fields| + 12
    requires tail == Front(After(Body(names, values, now), p), 10) && |tail| > |FormatInt(now)|
    requires |fields| + |tail| == |ValuesText(values)| + |FormatInt(now)|
    ensures tail[|tail| - |FormatInt(now)| - 1] == ':'
    ensures ValuesText(values)[|fields| + |tail| - |FormatInt(now)| - 1] == ','
  {
    TailEndsBeforeBrace(names, values, now, p, fields, tail);
    ColonBeforeTime(Members(names, values), now);
    ValuesEndInComma(values);
  }

  lemma OneCharacterOff(fields: string, tail: string, v: string, d: string)
    requires |fields| + |tail| == |v| + |d| && |tail| > |d|
    requires tail[|tail| - |d| - 1] != v[|v| - 1]
    ensures fields + tail != v + d
  {
    assert (fields + tail)[|v| - 1] == tail[|tail| - |d| - 1] && (v + d)[|v| - 1] == v[|v| - 1];
  }

  lemma OtherTail(names: seq<string>, values: seq<Value>, now: int, p: nat, fields: string, tail: string)
    requires |names| == |values| && p == KeysLength(names) + |fields| + 12
    requires tail == Front(After(Body(names, values, now), p), 10)
    requires Count(fields, ',') < Count(ValuesText(values), ',')
    ensures fields + tail != ValuesText(values) + FormatInt(now)
  {
    var v, d := ValuesText(values), FormatInt(now);
    DigitsHaveNoComma(now);
    if |tail| <= |d| {
      if fields + tail == v + d {
        SameTailSameCommas(fields, tail, v, d);
      }
    } else if |fields| + |tail| == |v| + |d| {
      ColonOrComma(names, values, now, p, fields, tail);
      OneCharacterOff(fields, tail, v, d);
    } else {
      assert |fields + tail| != |v + d|;
    }
  }

  lemma RowOfOtherRecord(names: seq<string>, values: seq<Value>, now: int)
    requires |names| == |values| && !CommaFree(values)
    ensures Row(names, RecordText(names, values, now)) != ValuesText(values) + FormatInt(now)
  {
    var s := Body(names, values, now);
    var p := TailStart(names, s);
    TailOfRow(names, values, now);
    RowHasFewCommas(names, s);
    ValuesHaveManyCommas(values);
    OtherTail(names, values, now, p, RowFields(names, s).0, Front(After(s, p), 10));
  }

  lemma SameTailSameCommas(a: string, t: string, b: string, d: string)
    requires a + t == b + d && |t| <= |d| && ',' !in d
    ensures Count(a, ',') == Count(b, ',')
  {
    forall i | 0 <= i < |t|
      ensures t[i] == d[|d| - |t| + i]
    {
      assert t[i] == (a + t)[|a| + i] == (b + d)[|b| + (|d| - |t| + i)];
    }
    CountZero(t, ',');
    CountZero(d, ',');
    CountConcat(a, t, ',');
    CountConcat(b, d, ',');
  }

  /** The row of a printed record is its values in order and then its time if and only if no value holds a comma and the
      time prints with ten bytes. */
  lemma RowIsTheValues(names: seq<string>, values: seq<Value>, now: int)
    requires |names| == |values|
    ensures Row(names, RecordText(names, values, now)) == ValuesText(values) + FormatInt(now)
       <==> CommaFree(values) && |FormatInt(now)| == 10
  {
    if CommaFree(values) {
      var d := FormatInt(now);
      var ten := Front(d + "}", 10);
      RowOfCommaFreeRecord(names, values, now);
      assert |d| == 10 ==> ten == d;
      assert |d| != 10 ==> |ten| != |d|;
    } else {
      RowOfOtherRecord(names, values, now);
    }
  }

  // ---------------------------------------------------------------- columns

  /** What lies between the commas. */
  function Columns(s: string): (columns: seq<string>)
    ensures columns != []
  {
    if s == "" then [""]
    else if s[0] == ',' then [""] + Columns(s[1..])
    else
      var rest := Columns(s[1..]);
      [[s[0]] + rest[0]] + rest[1..]
  }

  lemma {:induction false} ColumnOf(a: string)
    requires ',' !in a
    ensures Columns(a) == [a]
  {
    if a != "" {
      ColumnOf(a[1..]);
      assert [a[0]] + a[1..] == a;
    }
  }

  lemma {:induction false} FirstColumn(a: string, rest: string)
    requires ',' !in a
    ensures Columns(a + ("," + rest)) == [a] + Columns(rest)
  {
    var s := a + ("," + rest);
    if a == "" {
      assert s == "," + rest && s[1..] == rest;
    } else {
      assert s[1..] == a[1..] + ("," + rest);
      FirstColumn(a[1..], rest);
      assert [a[0]] + a[1..] == a;
      assert ([a[1..]] + Columns(rest))[1..] == Columns(rest);
    }
  }

  lemma {:induction false} JoinColumns(names: seq<string>, last: string)
    requires names != [] && forall i :: 0 <= i < |names| ==> ',' !in names[i]
    requires ',' !in last
    ensures Columns(Join(names, ",") + ("," + last)) == names + [last]
  {
    ColumnOf(last);
    if |names| == 1 {
      FirstColumn(names[0], last);
      assert names == [names[0]];
    } else {
      var more := Join(names[1..], ",") + ("," + last);
      JoinColumns(names[1..], last);
      ThreeParts(names[0], Join(names[1..], ","), "," + last);
      FirstColumn(names[0], more);
      assert names == [names[0]] + names[1..];
      ConcatAssoc([names[0]], names[1..], [last]);
    }
  }

  lemma ThreeParts(a: string, b: string, c: string)
    ensures a + "," + b + c == a + ("," + (b + c))
  {
  }

  lemma HeaderColumns(names: seq<string>)
    requires forall i :: 0 <= i < |names| ==> ',' !in names[i]
    ensures Columns(Header(names)) == (if names == [] then [""] else names) + ["timestamp"]
  {
    assert ",timestamp" == "," + "timestamp";
    if names == [] {
      assert "" + ("," + "timestamp") == ",timestamp";
      ColumnOf("timestamp");
      FirstColumn("", "timestamp");
    } else {
      JoinColumns(names, "timestamp");
    }
  }

  function Texts(values: seq<Value>): (texts: seq<string>)
    ensures |texts| == |values|
  {
    seq(|values|, i requires 0 <= i < |values| => ValueText(values[i]))
  }

  lemma {:induction false} RowColumns(values: seq<Value>, last: string)
    requires CommaFree(values) && ',' !in last
    ensures Columns(ValuesText(values) + last) == Texts(values) + [last]
  {
    if values == [] {
      assert "" + last == last;
      ColumnOf(last);
    } else {
      var more := ValuesText(values[1..]) + last;
      RowColumns(values[1..], last);
      ThreeParts(ValueText(values[0]), ValuesText(values[1..]), last);
      FirstColumn(ValueText(values[0]), more);
      assert Texts(values) == [ValueText(values[0])] + Texts(values[1..]);
      ConcatAssoc([ValueText(values[0])], Texts(values[1..]), [last]);
    }
  }

  /** Column by column, a row holds the values under their names and the time under its own; only without any field
      does the header have one column too many. */
  lemma HeaderMatchesRows(names: seq<string>, values: seq<Value>, now: int)
    requires |names| == |values| && CommaFree(values)
    requires forall i :: 0 <= i < |names| ==> ',' !in names[i]
    ensures Columns(ValuesText(values) + FormatInt(now)) == Texts(values) + [FormatInt(now)]
    ensures Columns(Header(names)) == (if names == [] then [""] else names) + ["timestamp"]
    ensures |Columns(Header(names))| == |Columns(ValuesText(values) + FormatInt(now))| <==> names != []
  {
    DigitsHaveNoComma(now);
    RowColumns(values, FormatInt(now));
    HeaderColumns(names);
  }
}
