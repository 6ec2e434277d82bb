/** The three ways the ClickHouse writer builds a row from a record (ingestion/clickhouse/clickhouse.go: JSON, SPB,
    PB), and when they agree. */
module Rows {
  import opened Text
  import opened StructPB
  import Float64

  /** The fields of the protobuf message and their types. */
  datatype Kind = Uint32 | Uint64 | String
  type Schema = map<string, Kind>

  /** A record as the protobuf message carries it; an absent key is a nil pointer. */
  datatype Val = Number(n: nat) | Characters(s: string)
  type Message = map<string, Val>

  datatype Cell = Nil | U32(n: nat) | U64(n: nat) | S(s: string) | F64(f: int)

  type Geo = string -> map<string, string>

  const POW32 := 0x1_0000_0000
  const POW64 := 0x1_0000_0000_0000_0000

  // ---------------------------------------------------------------- the code's cells

  /** A type assertion to float64 that fails is a panic, here None; a missing key fails too. */
  function JsonCell(schema: Schema, f: Struct, name: string): Option<Cell> {
    if name !in schema then None
    else if schema[name].String? then
      Some(if name !in f then Nil else match f[name] case StringValue(s) => S(s) case NumberValue(n) => F64(n))
    else if name in f && f[name].NumberValue? then
      Some(if schema[name].Uint32? then U32(f[name].n % POW32) else U64(f[name].n % POW64))
    else None
  }

  function GetNumber(f: Struct, name: string): int {
    if name in f && f[name].NumberValue? then f[name].n else 0
  }

  function GetString(f: Struct, name: string): string {
    if name in f && f[name].StringValue? then f[name].s else ""
  }

  function Lookup(g: map<string, string>, name: string): string {
    if name in g then g[name] else ""
  }

  function SpbCell(schema: Schema, f: Struct, g: map<string, string>, name: string): Option<Cell> {
    if name !in schema then None
    else
      match schema[name]
      case Uint32 => Some(U32(GetNumber(f, name) % POW32))
      case Uint64 => Some(U64(GetNumber(f, name) % POW64))
      case String => Some(S(if name in f then GetString(f, name) else Lookup(g, name)))
  }

  function PbCell(schema: Schema, m: Message, g: map<string, string>, name: string): Option<Cell> {
    if name !in schema then None
    else if name in m then
      match m[name]
      case Number(n) => Some(if schema[name].Uint32? then U32(n % POW32) else U64(n % POW64))
      case Characters(s) => Some(S(s))
    else Some(if name in g then S(g[name]) else Nil)
  }

  /** All cells, or a panic. */
  function Row(cell: string -> Option<Cell>, fields: seq<string>): Option<seq<Cell>> {
    if fields == [] then Some([])
    else
      match (Row(cell, fields[..|fields| - 1]), cell(fields[|fields| - 1]))
      case (Some(cells), Some(c)) => Some(cells + [c])
      case _ => None
  }

  function JsonGeo(geo: Option<Geo>, geoField: string, f: Struct): Option<map<string, string>> {
    if geo.None? || geoField !in f then Some(map[])
    else if f[geoField].StringValue? then Some(geo.value(f[geoField].s))
    else None
  }

  function SpbGeo(geo: Option<Geo>, geoField: string, f: Struct): map<string, string> {
    if geo.None? || geoField !in f then map[] else geo.value(GetString(f, geoField))
  }

  /** reflect.Value.String of something that is not a string describes it. */
  function PbGeo(geo: Option<Geo>, geoField: string, schema: Schema, m: Message): map<string, string> {
    if geo.None? || geoField !in schema then map[]
    else if geoField !in m then geo.value("<invalid Value>")
    else
      match m[geoField]
      case Characters(s) => geo.value(s)
      case Number(_) => geo.value(if schema[geoField].Uint32? then "<uint32 Value>" else "<uint64 Value>")
  }

  function Merged(f: Struct, g: map<string, string>): Struct {
    f + map k | k in g :: StringValue(g[k])
  }

  // ---------------------------------------------------------------- what a row should hold

  /** One cell for each field, and under each name what the record has there: a text as it is, a number in its column's
      type. `other` has the names that are taken from somewhere else. */
  ghost predicate ShowsStruct(schema: Schema, fields: seq<string>, f: Struct, other: map<string, string>,
                              row: seq<Cell>)
  {
    && |row| == |fields|
    && forall i :: 0 <= i < |fields| && fields[i] in f && fields[i] in schema && fields[i] !in other ==>
         match (schema[fields[i]], f[fields[i]])
         case (String, StringValue(s)) => row[i] == S(s)
         case (Uint32, NumberValue(n)) => row[i] == U32(n % 0x1_0000_0000)
         case (Uint64, NumberValue(n)) => row[i] == U64(n % 0x1_0000_0000_0000_0000)
         case _ => true
  }

  /** The same of a message, whose numbers are exact. */
  ghost predicate ShowsMessage(schema: Schema, fields: seq<string>, m: Message, row: seq<Cell>) {
    && |row| == |fields|
    && forall i :: 0 <= i < |fields| && fields[i] in m && fields[i] in schema ==>
         match (schema[fields[i]], m[fields[i]])
         case (_, Characters(s)) => row[i] == S(s)
         case (Uint32, Number(n)) => row[i] == U32(n % 0x1_0000_0000)
         case (Uint64, Number(n)) => row[i] == U64(n % 0x1_0000_0000_0000_0000)
         case _ => true
  }

  /** Where the record has nothing: what geo has, or else the type's zero in a struct message's row, nothing in the
      others. */
  ghost predicate ShowsRest(schema: Schema, fields: seq<string>, keys: set<string>, g: map<string, string>, zero: bool,
                            row: seq<Cell>)
    requires |row| == |fields|
  {
    forall i :: 0 <= i < |fields| && fields[i] !in keys && fields[i] in schema ==>
      row[i] == if zero && schema[fields[i]].Uint32? then U32(0)
                else if zero && schema[fields[i]].Uint64? then U64(0)
                else if fields[i] in g then S(g[fields[i]])
                else if zero then S("") else Nil
  }

  lemma {:induction false} RowCells(cell: string -> Option<Cell>, fields: seq<string>)
    ensures Row(cell, fields).Some? <==> forall i :: 0 <= i < |fields| ==> cell(fields[i]).Some?
    ensures Row(cell, fields).Some? ==>
              |Row(cell, fields).value| == |fields|
              && forall i :: 0 <= i < |fields| ==> cell(fields[i]) == Some(Row(cell, fields).value[i])
  {
    if fields != [] {
      var before := fields[..|fields| - 1];
      RowCells(cell, before);
      assert forall i :: 0 <= i < |before| ==> fields[i] == before[i];
    }
  }

  lemma JsonRowShows(schema: Schema, f: Struct, g: map<string, string>, fields: seq<string>)
    requires Row(name => JsonCell(schema, Merged(f, g), name), fields).Some?
    ensures var row := Row(name => JsonCell(schema, Merged(f, g), name), fields).value;
            ShowsStruct(schema, fields, f, g, row) && ShowsRest(schema, fields, f.Keys - g.Keys, g, false, row)
  {
    RowCells(name => JsonCell(schema, Merged(f, g), name), fields);
  }

  lemma SpbRowShows(schema: Schema, f: Struct, g: map<string, string>, fields: seq<string>)
    requires AllKnown(schema, fields)
    ensures var row := Row(name => SpbCell(schema, f, g, name), fields);
            row.Some? && ShowsStruct(schema, fields, f, map[], row.value)
            && ShowsRest(schema, fields, f.Keys, g, true, row.value)
  {
    RowCells(name => SpbCell(schema, f, g, name), fields);
  }

  lemma PbRowShows(schema: Schema, m: Message, g: map<string, string>, fields: seq<string>)
    requires AllKnown(schema, fields)
    ensures var row := Row(name => PbCell(schema, m, g, name), fields);
            row.Some? && ShowsMessage(schema, fields, m, row.value)
            && ShowsRest(schema, fields, m.Keys, g, false, row.value)
  {
    RowCells(name => PbCell(schema, m, g, name), fields);
  }

  class Clickhouse {
    const geo: Option<Geo>
    const geoField: string
    const fields: seq<string>
    const schema: Schema

    constructor (geo: Option<Geo>, geoField: string, fields: seq<string>, schema: Schema)
    {
      this.geo, this.geoField, this.fields, this.schema := geo, geoField, fields, schema;
    }

    /** Adds the geo answer to the record's own map, in whatever order the map is walked. */
    method Merge(f: Struct, g: map<string, string>) returns (r: Struct)
      ensures r == Merged(f, g)
    {
      r := f;
      var todo := g.Keys;
      while todo != {}
        invariant todo <= g.Keys
        invariant r == Merged(f, g - todo)
        decreases todo
      {
        var k :| k in todo;
        r := r[k := StringValue(g[k])];
        todo := todo - {k};
      }
      assert g - {} == g;
    }

    method Json(f: Struct) returns (a: Option<seq<Cell>>)
      ensures a == match JsonGeo(geo, geoField, f)
                   case None => None
                   case Some(g) => Row(name => JsonCell(schema, Merged(f, g), name), fields)
      ensures a.Some? ==>
                var g := JsonGeo(geo, geoField, f);
                g.Some? && ShowsStruct(schema, fields, f, g.value, a.value)
                && ShowsRest(schema, fields, f.Keys - g.value.Keys, g.value, false, a.value)
    {
      var g := JsonGeo(geo, geoField, f);
      if g.None? {
        return None;
      }
      var merged := Merge(f, g.value);
      a := Fill(name => JsonCell(schema, merged, name));
      if a.Some? {
        JsonRowShows(schema, f, g.value, fields);
      }
    }

    method Spb(f: Struct) returns (a: Option<seq<Cell>>)
      ensures a == Row(name => SpbCell(schema, f, SpbGeo(geo, geoField, f), name), fields)
      ensures AllKnown(schema, fields) ==>
                a.Some? && ShowsStruct(schema, fields, f, map[], a.value)
                && ShowsRest(schema, fields, f.Keys, SpbGeo(geo, geoField, f), true, a.value)
    {
      var g := SpbGeo(geo, geoField, f);
      a := Fill(name => SpbCell(schema, f, g, name));
      if AllKnown(schema, fields) {
        SpbRowShows(schema, f, g, fields);
      }
    }

    method Pb(m: Message) returns (a: Option<seq<Cell>>)
      ensures a == Row(name => PbCell(schema, m, PbGeo(geo, geoField, schema, m), name), fields)
      ensures AllKnown(schema, fields) ==>
                a.Some? && ShowsMessage(schema, fields, m, a.value)
                && ShowsRest(schema, fields, m.Keys, PbGeo(geo, geoField, schema, m), false, a.value)
    {
      var g := PbGeo(geo, geoField, schema, m);
      a := Fill(name => PbCell(schema, m, g, name));
      if AllKnown(schema, fields) {
        PbRowShows(schema, m, g, fields);
      }
    }

    /** The loop over the requested fields. */
    method Fill(cell: string -> Option<Cell>) returns (a: Option<seq<Cell>>)
      ensures a == Row(cell, fields)
    {
      var cells: seq<Cell> := [];
      for i := 0 to |fields|
        invariant Row(cell, fields[..i]) == Some(cells)
      {
        assert fields[..i + 1][..i] == fields[..i];
        var c := cell(fields[i]);
        if c.None? {
          RowFails(cell, fields, i + 1);
          return None;
        }
        cells := cells + [c.value];
      }
      assert fields[..|fields|] == fields;
      return Some(cells);
    }
  }

  lemma {:induction false} RowFails(cell: string -> Option<Cell>, fields: seq<string>, i: nat)
    requires i <= |fields| && Row(cell, fields[..i]) == None
    ensures Row(cell, fields) == None
    decreases |fields| - i
  {
    if i == |fields| {
      assert fields[..i] == fields;
    } else {
      assert fields[..i + 1][..i] == fields[..i];
      RowFails(cell, fields, i + 1);
    }
  }

  // ---------------------------------------------------------------- when the rows agree

  predicate ConformsAt(schema: Schema, m: Message, k: string)
    requires k in m
  {
    k in schema
    && match schema[k]
       case Uint32 => m[k].Number? && m[k].n < POW32
       case Uint64 => m[k].Number? && m[k].n <= MAX_INT64
       case String => m[k].Characters?
  }

  predicate Conforms(schema: Schema, m: Message) {
    forall k :: k in m ==> ConformsAt(schema, m, k)
  }

  /** The same record with its numbers through float64, as encoding/json and the struct message carry it. */
  function AsFloats(m: Message): Struct {
    map k | k in m :: (match m[k]
                       case Number(n) => NumberValue(Float64.Float64(n))
                       case Characters(s) => StringValue(s))
  }

  predicate AllKnown(schema: Schema, fields: seq<string>) {
    forall i :: 0 <= i < |fields| ==> fields[i] in schema
  }

  /** Two ways to fill a row agree exactly when they agree on every cell, if one of them never fails. */
  lemma {:induction false} RowsAgree(c1: string -> Option<Cell>, c2: string -> Option<Cell>, fields: seq<string>)
    requires forall i :: 0 <= i < |fields| ==> c2(fields[i]).Some?
    ensures Row(c2, fields).Some?
    ensures Row(c1, fields) == Row(c2, fields) <==> forall i :: 0 <= i < |fields| ==> c1(fields[i]) == c2(fields[i])
  {
    if fields != [] {
      var before, last := fields[..|fields| - 1], fields[|fields| - 1];
      RowsAgree(c1, c2, before);
      assert forall i :: 0 <= i < |before| ==> fields[i] == before[i];
      var r1, r2 := Row(c1, before), Row(c2, before);
      if r1.Some? && c1(last).Some? {
        LastsDiffer(r1.value, c1(last).value, r2.value, c2(last).value);
      }
    }
  }

  lemma LastsDiffer<T>(a: seq<T>, x: T, b: seq<T>, y: T)
    ensures a + [x] == b + [y] <==> a == b && x == y
  {
    if a + [x] == b + [y] {
      assert a == (a + [x])[..|a|] && b == (b + [y])[..|b|];
      assert x == (a + [x])[|a|] && y == (b + [y])[|b|];
    }
  }

  lemma SmallFloats(n: nat)
    ensures n <= Float64.TWO53 ==> Float64.Float64(n) == n
    ensures n <= MAX_INT64 ==> 0 <= Float64.Float64(n) < POW64
  {
    if n <= Float64.TWO53 {
      Float64.ExactUpTo53Bits(n);
    }
    Float64.RelativeError(n);
  }

  /** JSON and struct messages give the same cell, `gj` and `gs` being their geo answers: the record must have the
      field, and the JSON answer not contradict it, or both answers have the same text for a field of text. */
  predicate JsonAgrees(schema: Schema, m: Message, gj: map<string, string>, gs: map<string, string>, name: string)
    requires name in schema
  {
    if name in m then name in gj ==> m[name] == Characters(gj[name])
    else schema[name].String? && name in gj && gj[name] == Lookup(gs, name)
  }

  lemma JsonCellAgrees(schema: Schema, m: Message, gj: map<string, string>, gs: map<string, string>, name: string)
    requires Conforms(schema, m) && name in schema
    ensures JsonCell(schema, Merged(AsFloats(m), gj), name) == SpbCell(schema, AsFloats(m), gs, name)
       <==> JsonAgrees(schema, m, gj, gs, name)
  {
  }

  /** Plain and struct messages give the same cell, `gp` and `gs` being their geo answers: the record must have the
      field, exactly representable if a number, or both answers the same text for a field of text. */
  predicate PbAgrees(schema: Schema, m: Message, gp: map<string, string>, gs: map<string, string>, name: string)
    requires name in schema
  {
    if name in m then m[name].Number? ==> Float64.Float64(m[name].n) == m[name].n
    else schema[name].String? && name in gp && gp[name] == Lookup(gs, name)
  }

  /** A number of the record as the struct message gives it: through float64, in range. */
  lemma NumberOf(schema: Schema, m: Message, name: string)
    requires Conforms(schema, m) && name in m && m[name].Number?
    ensures name in schema
    ensures var x := Float64.Float64(m[name].n);
            && GetNumber(AsFloats(m), name) == x && 0 <= x
            && (if schema[name].Uint32? then x == m[name].n < POW32 else x < POW64)
  {
    SmallFloats(m[name].n);
  }

  lemma NumberCellAgrees(schema: Schema, m: Message, gp: map<string, string>, gs: map<string, string>, name: string)
    requires Conforms(schema, m) && name in m && m[name].Number?
    ensures name in schema
    ensures PbCell(schema, m, gp, name) == SpbCell(schema, AsFloats(m), gs, name)
       <==> Float64.Float64(m[name].n) == m[name].n
  {
    NumberOf(schema, m, name);
    SmallMods(m[name].n, Float64.Float64(m[name].n));
  }

  lemma SmallMods(n: nat, x: int)
    ensures n < POW32 ==> n % POW32 == n
    ensures n < POW64 ==> n % POW64 == n
    ensures 0 <= x < POW64 ==> x % POW64 == x
  {
  }

  lemma PbCellAgrees(schema: Schema, m: Message, gp: map<string, string>, gs: map<string, string>, name: string)
    requires Conforms(schema, m) && name in schema
    ensures PbCell(schema, m, gp, name) == SpbCell(schema, AsFloats(m), gs, name) <==> PbAgrees(schema, m, gp, gs, name)
  {
    if name in m && m[name].Number? {
      NumberCellAgrees(schema, m, gp, gs, name);
    } else if name in m {
      assert GetString(AsFloats(m), name) == m[name].s;
    }
  }

  // What the three paths do with one record, whether or not it has the geo field.

  function JsonRow(geo: Option<Geo>, geoField: string, schema: Schema, fields: seq<string>,
                   m: Message): Option<seq<Cell>>
  {
    match JsonGeo(geo, geoField, AsFloats(m))
    case None => None
    case Some(g) => Row(name => JsonCell(schema, Merged(AsFloats(m), g), name), fields)
  }

  function SpbRow(geo: Option<Geo>, geoField: string, schema: Schema, fields: seq<string>,
                  m: Message): Option<seq<Cell>>
  {
    var g := SpbGeo(geo, geoField, AsFloats(m));
    Row(name => SpbCell(schema, AsFloats(m), g, name), fields)
  }

  function PbRow(geo: Option<Geo>, geoField: string, schema: Schema, fields: seq<string>,
                 m: Message): Option<seq<Cell>>
  {
    var g := PbGeo(geo, geoField, schema, m);
    Row(name => PbCell(schema, m, g, name), fields)
  }

  lemma SpbRowIsThere(geo: Option<Geo>, geoField: string, schema: Schema, fields: seq<string>, m: Message)
    requires AllKnown(schema, fields)
    ensures SpbRow(geo, geoField, schema, fields, m).Some?
  {
    var g := SpbGeo(geo, geoField, AsFloats(m));
    var cell := name => SpbCell(schema, AsFloats(m), g, name);
    RowsAgree(cell, cell, fields);
  }

  /** The JSON row is the struct-message row if and only if geo is not asked about a number (which panics) and every
      requested field is in the record, or as text in both geo answers, without contradiction. */
  lemma JsonRowAgrees(geo: Option<Geo>, geoField: string, schema: Schema, fields: seq<string>, m: Message)
    requires Conforms(schema, m) && AllKnown(schema, fields)
    ensures JsonRow(geo, geoField, schema, fields, m) == SpbRow(geo, geoField, schema, fields, m)
       <==> var gj, gs := JsonGeo(geo, geoField, AsFloats(m)), SpbGeo(geo, geoField, AsFloats(m));
            gj.Some? && forall i :: 0 <= i < |fields| ==> JsonAgrees(schema, m, gj.value, gs, fields[i])
  {
    var gj, gs := JsonGeo(geo, geoField, AsFloats(m)), SpbGeo(geo, geoField, AsFloats(m));
    SpbRowIsThere(geo, geoField, schema, fields, m);
    if gj.Some? {
      forall i | 0 <= i < |fields|
        ensures JsonCell(schema, Merged(AsFloats(m), gj.value), fields[i])
             == SpbCell(schema, AsFloats(m), gs, fields[i])
           <==> JsonAgrees(schema, m, gj.value, gs, fields[i])
      {
        JsonCellAgrees(schema, m, gj.value, gs, fields[i]);
      }
      RowsAgree(name => JsonCell(schema, Merged(AsFloats(m), gj.value), name),
                name => SpbCell(schema, AsFloats(m), gs, name), fields);
    }
  }

  /** The plain-message row is the struct-message row if and only if every requested field is in the record, exactly
      representable if a number, or as text in both geo answers. */
  lemma PbRowAgrees(geo: Option<Geo>, geoField: string, schema: Schema, fields: seq<string>, m: Message)
    requires Conforms(schema, m) && AllKnown(schema, fields)
    ensures PbRow(geo, geoField, schema, fields, m) == SpbRow(geo, geoField, schema, fields, m)
       <==> var gp, gs := PbGeo(geo, geoField, schema, m), SpbGeo(geo, geoField, AsFloats(m));
            forall i :: 0 <= i < |fields| ==> PbAgrees(schema, m, gp, gs, fields[i])
  {
    var gp, gs := PbGeo(geo, geoField, schema, m), SpbGeo(geo, geoField, AsFloats(m));
    forall i | 0 <= i < |fields|
      ensures PbCell(schema, m, gp, fields[i]) == SpbCell(schema, AsFloats(m), gs, fields[i])
         <==> PbAgrees(schema, m, gp, gs, fields[i])
    {
      PbCellAgrees(schema, m, gp, gs, fields[i]);
    }
    RowsAgree(name => PbCell(schema, m, gp, name), name => SpbCell(schema, AsFloats(m), gs, name), fields);
  }

  /** What the three paths ask geo about: the same, if the record has a text in the geo field; otherwise JSON and
      struct messages ask nothing (a number panics, or counts as no text), while plain messages ask about a Go
      description of what is there instead. */
  lemma GeoAnswers(geo: Geo, geoField: string, schema: Schema, m: Message)
    requires Conforms(schema, m) && geoField in schema
    ensures var j, s, p := JsonGeo(Some(geo), geoField, AsFloats(m)), SpbGeo(Some(geo), geoField, AsFloats(m)),
                           PbGeo(Some(geo), geoField, schema, m);
            if geoField !in m then j == Some(map[]) && s == map[] && p == geo("<invalid Value>")
            else if m[geoField].Number? then
              j == None && s == geo("")
              && p == geo(if schema[geoField].Uint32? then "<uint32 Value>" else "<uint64 Value>")
            else j == Some(s) && s == p == geo(m[geoField].s)
  {
  }

  lemma FloatIsClose(n: nat)
    ensures Close(Float64.Float64(n), n)
  {
    Float64.RelativeError(n);
    if n <= Float64.TWO53 {
      Float64.ExactUpTo53Bits(n);
    }
  }

  /** Where they disagree only by rounding, a stored number is off by at most its 2^-53rd part. */
  lemma StoredNumberIsClose(schema: Schema, m: Message, g: map<string, string>, name: string)
    requires Conforms(schema, m) && name in m && m[name].Number?
    ensures name in schema
    ensures var c := SpbCell(schema, AsFloats(m), g, name);
            && c.Some? && (c.value.U32? || c.value.U64?)
            && c.value.n == Float64.Float64(m[name].n)
    ensures Close(Float64.Float64(m[name].n), m[name].n)
  {
    NumberOf(schema, m, name);
    FloatIsClose(m[name].n);
  }

  /** Off by at most the 2^-53rd part of n, and exact up to 2^53. */
  predicate Close(stored: int, n: nat) {
    0 - n <= (stored - n) * Float64.TWO53 <= n && (n <= Float64.TWO53 ==> stored == n)
  }

  /** All three on one record, whatever it holds. */
  method ThreeRows(c: Clickhouse, m: Message)
    returns (json: Option<seq<Cell>>, spb: Option<seq<Cell>>, pb: Option<seq<Cell>>)
    requires Conforms(c.schema, m) && AllKnown(c.schema, c.fields)
    ensures spb.Some? && ShowsStruct(c.schema, c.fields, AsFloats(m), map[], spb.value)
    ensures pb.Some? && ShowsMessage(c.schema, c.fields, m, pb.value)
    ensures json.Some? ==>
              var g := JsonGeo(c.geo, c.geoField, AsFloats(m));
              g.Some? && ShowsStruct(c.schema, c.fields, AsFloats(m), g.value, json.value)
    ensures json == spb
       <==> var gj, gs := JsonGeo(c.geo, c.geoField, AsFloats(m)), SpbGeo(c.geo, c.geoField, AsFloats(m));
            gj.Some? && forall i :: 0 <= i < |c.fields| ==> JsonAgrees(c.schema, m, gj.value, gs, c.fields[i])
    ensures pb == spb
       <==> var gp, gs := PbGeo(c.geo, c.geoField, c.schema, m), SpbGeo(c.geo, c.geoField, AsFloats(m));
            forall i :: 0 <= i < |c.fields| ==> PbAgrees(c.schema, m, gp, gs, c.fields[i])
  {
    JsonRowAgrees(c.geo, c.geoField, c.schema, c.fields, m);
    PbRowAgrees(c.geo, c.geoField, c.schema, c.fields, m);
    SpbRowIsThere(c.geo, c.geoField, c.schema, c.fields, m);
    json := c.Json(AsFloats(m));
    spb := c.Spb(AsFloats(m));
    pb := c.Pb(m);
  }
}
