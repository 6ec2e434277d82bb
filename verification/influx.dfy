/** The InfluxDB points (ingestion/influxdb/influxdb.go): built by walking a map, whose order Go leaves open. */
module Influx {
  import opened Text
  import opened StructPB
  import opened Rows
  import Float64

  datatype Point = Point(tags: map<string, string>, fields: map<string, int>, timestamp: Option<int>)

  const EMPTY := Point(map[], map[], None)

  /** What one key of the record adds to the point. */
  function Visit(geo: Option<Geo>, geoField: string, f: Struct, p: Point, key: string): Point
    requires key in f
  {
    match f[key]
    case StringValue(s) =>
      if geo.Some? && key == geoField then p.(tags := p.tags + geo.value(s)) else p.(tags := p.tags[key := s])
    case NumberValue(n) =>
      if key != "Timestamp" then p.(fields := p.fields[key := n]) else p.(timestamp := Some(n))
  }

  /** The point after visiting the keys in the given order. */
  function PointOver(geo: Option<Geo>, geoField: string, f: Struct, order: seq<string>): Point
    requires forall k :: k in order ==> k in f
  {
    if order == [] then EMPTY
    else
      var last := order[|order| - 1];
      assert forall k :: k in order[..|order| - 1] ==> k in order;
      assert last in order;
      Visit(geo, geoField, f, PointOver(geo, geoField, f, order[..|order| - 1]), last)
  }

  /** Each key once. */
  ghost predicate Enumerates(order: seq<string>, keys: set<string>) {
    (forall k :: k in order <==> k in keys) && (forall i, j :: 0 <= i < j < |order| ==> order[i] != order[j])
  }

  // ---------------------------------------------------------------- the order does not matter, or does

  /** The geo answer that the walk will meet. */
  function Answer(geo: Option<Geo>, geoField: string, f: Struct): map<string, string> {
    if geo.Some? && geoField in f && f[geoField].StringValue? then geo.value(f[geoField].s) else map[]
  }

  /** Key k of the record becomes a tag of its own. */
  predicate OwnTag(geo: Option<Geo>, geoField: string, f: Struct, k: string) {
    k in f && f[k].StringValue? && !(geo.Some? && k == geoField)
  }

  /** No tag of the geo answer contradicts one of the record. */
  predicate Compatible(geo: Option<Geo>, geoField: string, f: Struct) {
    var g := Answer(geo, geoField, f);
    forall k :: k in g && OwnTag(geo, geoField, f, k) ==> g[k] == f[k].s
  }

  function OwnTags(geo: Option<Geo>, geoField: string, f: Struct, seen: set<string>): map<string, string> {
    map k | k in seen && OwnTag(geo, geoField, f, k) :: f[k].s
  }

  function Tags(geo: Option<Geo>, geoField: string, f: Struct, seen: set<string>): map<string, string> {
    OwnTags(geo, geoField, f, seen) + (if geoField in seen then Answer(geo, geoField, f) else map[])
  }

  function Numbers(f: Struct, seen: set<string>): map<string, int> {
    map k | k in seen && k in f && f[k].NumberValue? && k != "Timestamp" :: f[k].n
  }

  function Time(f: Struct, seen: set<string>): Option<int> {
    if "Timestamp" in seen && "Timestamp" in f && f["Timestamp"].NumberValue? then Some(f["Timestamp"].n) else None
  }

  /** The point after visiting the keys in `seen`, whatever their order. */
  function Expected(geo: Option<Geo>, geoField: string, f: Struct, seen: set<string>): Point {
    Point(Tags(geo, geoField, f, seen), Numbers(f, seen), Time(f, seen))
  }

  lemma SetThenMerge(own: map<string, string>, g: map<string, string>, key: string, v: string)
    requires key in g ==> g[key] == v
    ensures (own + g)[key := v] == own[key := v] + g
  {
  }

  lemma OwnTagsGrow(geo: Option<Geo>, geoField: string, f: Struct, seen: set<string>, key: string)
    requires key !in seen
    ensures OwnTags(geo, geoField, f, seen + {key})
         == if OwnTag(geo, geoField, f, key) then OwnTags(geo, geoField, f, seen)[key := f[key].s]
            else OwnTags(geo, geoField, f, seen)
  {
  }

  lemma TagsGrow(geo: Option<Geo>, geoField: string, f: Struct, seen: set<string>, key: string)
    requires Compatible(geo, geoField, f) && key in f && key !in seen
    ensures Visit(geo, geoField, f, Expected(geo, geoField, f, seen), key).tags == Tags(geo, geoField, f, seen + {key})
  {
    var own, g := OwnTags(geo, geoField, f, seen), Answer(geo, geoField, f);
    OwnTagsGrow(geo, geoField, f, seen, key);
    if OwnTag(geo, geoField, f, key) {
      SetThenMerge(own, g, key, f[key].s);
      SetThenMerge(own, map[], key, f[key].s);
      if key == geoField {
        assert g == map[];
      }
    } else if key == geoField {
      assert own + map[] == own;
    }
  }

  lemma VisitIsExpected(geo: Option<Geo>, geoField: string, f: Struct, seen: set<string>, key: string)
    requires Compatible(geo, geoField, f) && key in f && key !in seen
    ensures Visit(geo, geoField, f, Expected(geo, geoField, f, seen), key) == Expected(geo, geoField, f, seen + {key})
  {
    TagsGrow(geo, geoField, f, seen, key);
    var a := Visit(geo, geoField, f, Expected(geo, geoField, f, seen), key);
    assert a.fields == Numbers(f, seen + {key});
    assert a.timestamp == Time(f, seen + {key});
  }

  lemma {:induction false} WalkIsExpected(geo: Option<Geo>, geoField: string, f: Struct, order: seq<string>)
    requires Compatible(geo, geoField, f)
    requires Enumerates(order, set k | k in order) && forall k :: k in order ==> k in f
    ensures PointOver(geo, geoField, f, order) == Expected(geo, geoField, f, set k | k in order)
  {
    if order == [] {
      assert Expected(geo, geoField, f, {}) == EMPTY;
    } else {
      var before, last := order[..|order| - 1], order[|order| - 1];
      assert forall k :: k in order <==> k in before || k == last;
      assert last !in before;
      WalkIsExpected(geo, geoField, f, before);
      VisitIsExpected(geo, geoField, f, (set k | k in before), last);
      assert (set k | k in order) == (set k | k in before) + {last};
    }
  }

  lemma {:induction false} SomeOrder(keys: set<string>) returns (order: seq<string>)
    ensures Enumerates(order, keys)
  {
    if keys == {} {
      order := [];
    } else {
      var k :| k in keys;
      var rest := SomeOrder(keys - {k});
      order := rest + [k];
    }
  }

  /** Some order visits a given key last. */
  lemma VisitedLast(geo: Option<Geo>, geoField: string, f: Struct, key: string) returns (order: seq<string>)
    requires key in f
    ensures Enumerates(order, f.Keys)
    ensures order != [] && order[|order| - 1] == key
  {
    var rest := SomeOrder(f.Keys - {key});
    order := rest + [key];
  }

  /** Every order gives the same point. */
  ghost predicate OrderFree(geo: Option<Geo>, geoField: string, f: Struct) {
    forall a, b :: Enumerates(a, f.Keys) && Enumerates(b, f.Keys) ==>
      PointOver(geo, geoField, f, a) == PointOver(geo, geoField, f, b)
  }

  /** The point does not depend on the order of the walk exactly when no geo tag contradicts a tag of the record. */
  lemma OrderDoesNotMatter(geo: Option<Geo>, geoField: string, f: Struct)
    ensures OrderFree(geo, geoField, f) <==> Compatible(geo, geoField, f)
    ensures Compatible(geo, geoField, f) ==>
              forall a :: Enumerates(a, f.Keys) ==> PointOver(geo, geoField, f, a) == Expected(geo, geoField, f, f.Keys)
  {
    if Compatible(geo, geoField, f) {
      forall a | Enumerates(a, f.Keys)
        ensures PointOver(geo, geoField, f, a) == Expected(geo, geoField, f, f.Keys)
      {
        assert (set k | k in a) == f.Keys;
        WalkIsExpected(geo, geoField, f, a);
      }
    } else {
      var g := Answer(geo, geoField, f);
      var k :| k in g && OwnTag(geo, geoField, f, k) && g[k] != f[k].s;
      var a := VisitedLast(geo, geoField, f, k);
      var b := VisitedLast(geo, geoField, f, geoField);
      assert PointOver(geo, geoField, f, a).tags[k] == f[k].s;
      assert PointOver(geo, geoField, f, b).tags[k] == g[k];
    }
  }

  /** What the point of a record should hold: a tag for every text but the one that geo is asked about, the tags of the
      geo answer, a field for every number but the time, the time, and nothing else. */
  ghost predicate ShowsPoint(geo: Option<Geo>, geoField: string, f: Struct, p: Point) {
    var asked := geo.Some? && geoField in f && f[geoField].StringValue?;
    && (forall k :: k in f && f[k].StringValue? && !(geo.Some? && k == geoField) ==> k in p.tags && p.tags[k] == f[k].s)
    && (asked ==> forall k :: k in geo.value(f[geoField].s) ==> k in p.tags && p.tags[k] == geo.value(f[geoField].s)[k])
    && (forall k :: k in p.tags ==>
          (k in f && f[k].StringValue? && !(geo.Some? && k == geoField)) || (asked && k in geo.value(f[geoField].s)))
    && (forall k :: k in p.fields <==> k in f && f[k].NumberValue? && k != "Timestamp")
    && (forall k :: k in p.fields ==> p.fields[k] == f[k].n)
    && p.timestamp == if "Timestamp" in f && f["Timestamp"].NumberValue? then Some(f["Timestamp"].n) else None
  }

  lemma ExpectedShows(geo: Option<Geo>, geoField: string, f: Struct)
    requires Compatible(geo, geoField, f)
    ensures ShowsPoint(geo, geoField, f, Expected(geo, geoField, f, f.Keys))
  {
  }

  /** pointSPB and pointJSON: the map is walked in any order. */
  method MakePoint(geo: Option<Geo>, geoField: string, f: Struct) returns (p: Point, ghost order: seq<string>)
    ensures Enumerates(order, f.Keys) && p == PointOver(geo, geoField, f, order)
    ensures Compatible(geo, geoField, f) ==> p == Expected(geo, geoField, f, f.Keys)
    ensures Compatible(geo, geoField, f) ==> ShowsPoint(geo, geoField, f, p)
  {
    p, order := EMPTY, [];
    var todo := f.Keys;
    while todo != {}
      invariant todo <= f.Keys && Enumerates(order, f.Keys - todo)
      invariant p == PointOver(geo, geoField, f, order)
      decreases todo
    {
      var key :| key in todo;
      p := Visit(geo, geoField, f, p, key);
      assert (order + [key])[..|order|] == order;
      order := order + [key];
      todo := todo - {key};
    }
    OrderDoesNotMatter(geo, geoField, f);
    if Compatible(geo, geoField, f) {
      ExpectedShows(geo, geoField, f);
    }
  }

  // ---------------------------------------------------------------- the plain message

  /** What one declared field of the message adds: a switch on its kind; a nil pointer adds nothing. */
  function VisitField(geo: Option<Geo>, geoField: string, schema: Schema, m: Message, p: Point, name: string): Point
    requires Conforms(schema, m)
  {
    if name !in m then p
    else
      match schema[name]
      case String =>
        var s := m[name].s;
        if geo.Some? && name == geoField then p.(tags := p.tags + geo.value(s)) else p.(tags := p.tags[name := s])
      case Uint32 => p.(fields := p.fields[name := m[name].n])
      case Uint64 =>
        if name != "Timestamp" then p.(fields := p.fields[name := m[name].n]) else p.(timestamp := Some(m[name].n))
  }

  function PointInOrder(geo: Option<Geo>, geoField: string, schema: Schema, m: Message, declared: seq<string>): Point
    requires Conforms(schema, m)
  {
    if declared == [] then EMPTY
    else
      var before := declared[..|declared| - 1];
      VisitField(geo, geoField, schema, m, PointInOrder(geo, geoField, schema, m, before), declared[|declared| - 1])
  }

  /** pointPB: one pass over the message type's fields, in the order of their declaration. */
  method MakePointPb(geo: Option<Geo>, geoField: string, schema: Schema, declared: seq<string>, m: Message)
    returns (p: Point)
    requires Conforms(schema, m) && Declared(schema, declared)
    ensures p == PointInOrder(geo, geoField, schema, m, declared)
    ensures Compatible(geo, geoField, AsIs(m)) ==> p == Expected(geo, geoField, AsIs(m), m.Keys)
    ensures Compatible(geo, geoField, AsIs(m)) ==> ShowsPoint(geo, geoField, AsIs(m), p)
  {
    var tags: map<string, string> := map[];
    var fields: map<string, int> := map[];
    var timestamp: Option<int> := None;
    for n := 0 to |declared|
      invariant Point(tags, fields, timestamp) == PointInOrder(geo, geoField, schema, m, declared[..n])
    {
      InOrderSnoc(geo, geoField, schema, m, declared, n);
      var name := declared[n];
      if name in m {
        match schema[name]
        case String =>
          if geo.Some? && name == geoField {
            tags := tags + geo.value(m[name].s);
          } else {
            tags := tags[name := m[name].s];
          }
        case Uint32 =>
          fields := fields[name := m[name].n];
        case Uint64 =>
          if name != "Timestamp" {
            fields := fields[name := m[name].n];
          } else {
            timestamp := Some(m[name].n);
          }
      }
    }
    assert declared[..|declared|] == declared;
    p := Point(tags, fields, timestamp);
    if Compatible(geo, geoField, AsIs(m)) {
      PassIsExpected(geo, geoField, schema, m, declared);
      assert AsIs(m).Keys == m.Keys;
      ExpectedShows(geo, geoField, AsIs(m));
    }
  }

  lemma InOrderSnoc(geo: Option<Geo>, geoField: string, schema: Schema, m: Message, declared: seq<string>, n: nat)
    requires Conforms(schema, m) && n < |declared|
    ensures PointInOrder(geo, geoField, schema, m, declared[..n + 1])
         == VisitField(geo, geoField, schema, m, PointInOrder(geo, geoField, schema, m, declared[..n]), declared[n])
  {
    assert declared[..n + 1][..n] == declared[..n];
  }

  lemma PassIsExpected(geo: Option<Geo>, geoField: string, schema: Schema, m: Message, declared: seq<string>)
    requires Conforms(schema, m) && Declared(schema, declared) && Compatible(geo, geoField, AsIs(m))
    ensures PointInOrder(geo, geoField, schema, m, declared) == Expected(geo, geoField, AsIs(m), m.Keys)
  {
    PassIsWalk(geo, geoField, schema, m, declared);
    OrderDoesNotMatter(geo, geoField, AsIs(m));
    assert AsIs(m).Keys == m.Keys;
  }

  /** The numbers of a message as they are. */
  function AsIs(m: Message): Struct {
    map k | k in m :: (match m[k] case Number(n) => NumberValue(n) case Characters(s) => StringValue(s))
  }

  /** The message type's fields in order; the time is its only 64-bit field by that name. */
  ghost predicate Declared(schema: Schema, declared: seq<string>) {
    Enumerates(declared, schema.Keys) && ("Timestamp" in schema ==> schema["Timestamp"].Uint64?)
  }

  /** The declared fields that a message has, in order. */
  function Present(m: Message, declared: seq<string>): (order: seq<string>)
    ensures forall k :: k in order <==> k in declared && k in m
  {
    if declared == [] then []
    else
      var before, last := declared[..|declared| - 1], declared[|declared| - 1];
      assert forall k :: k in declared <==> k in before || k == last;
      Present(m, before) + (if last in m then [last] else [])
  }

  predicate NoRepeats(names: seq<string>) {
    forall i, j :: 0 <= i < j < |names| ==> names[i] != names[j]
  }

  lemma {:induction false} PresentIsDistinct(m: Message, declared: seq<string>)
    requires NoRepeats(declared)
    ensures NoRepeats(Present(m, declared))
  {
    if declared != [] {
      var before, last := declared[..|declared| - 1], declared[|declared| - 1];
      PresentIsDistinct(m, before);
      assert last !in before;
      assert last !in Present(m, before);
    }
  }

  /** The pass is one of the walks over the message's fields taken as a map, numbers as they are. */
  lemma PassIsWalk(geo: Option<Geo>, geoField: string, schema: Schema, m: Message, declared: seq<string>)
    requires Conforms(schema, m) && Declared(schema, declared)
    ensures var order := Present(m, declared);
            && Enumerates(order, AsIs(m).Keys)
            && PointInOrder(geo, geoField, schema, m, declared) == PointOver(geo, geoField, AsIs(m), order)
  {
    PresentIsDistinct(m, declared);
    assert AsIs(m).Keys == m.Keys;
    PassFollowsWalk(geo, geoField, schema, m, declared);
  }

  lemma VisitFieldIsVisit(geo: Option<Geo>, geoField: string, schema: Schema, m: Message, p: Point, name: string)
    requires Conforms(schema, m) && ("Timestamp" in schema ==> schema["Timestamp"].Uint64?)
    ensures VisitField(geo, geoField, schema, m, p, name)
         == if name in m then Visit(geo, geoField, AsIs(m), p, name) else p
  {
  }

  lemma PointOverSnoc(geo: Option<Geo>, geoField: string, f: Struct, order: seq<string>, key: string)
    requires key in f && forall k :: k in order ==> k in f
    ensures PointOver(geo, geoField, f, order + [key])
         == Visit(geo, geoField, f, PointOver(geo, geoField, f, order), key)
  {
    assert (order + [key])[..|order|] == order;
  }

  lemma {:induction false} PassFollowsWalk(geo: Option<Geo>, geoField: string, schema: Schema, m: Message,
                                           declared: seq<string>)
    requires Conforms(schema, m) && ("Timestamp" in schema ==> schema["Timestamp"].Uint64?)
    ensures PointInOrder(geo, geoField, schema, m, declared) == PointOver(geo, geoField, AsIs(m), Present(m, declared))
  {
    if declared != [] {
      var before, last := declared[..|declared| - 1], declared[|declared| - 1];
      PassFollowsWalk(geo, geoField, schema, m, before);
      VisitFieldIsVisit(geo, geoField, schema, m, PointInOrder(geo, geoField, schema, m, before), last);
      if last in m {
        PointOverSnoc(geo, geoField, AsIs(m), Present(m, before), last);
      } else {
        assert Present(m, before) + [] == Present(m, before);
      }
    }
  }

  predicate AllExact(m: Message) {
    forall k :: k in m && m[k].Number? ==> Float64.Float64(m[k].n) == m[k].n
  }

  /** Every walk over the record's map gives the point of the plain message. */
  ghost predicate AllAgree(geo: Option<Geo>, geoField: string, schema: Schema, m: Message, declared: seq<string>)
    requires Conforms(schema, m)
  {
    forall order :: Enumerates(order, AsFloats(m).Keys) ==>
      PointOver(geo, geoField, AsFloats(m), order) == PointInOrder(geo, geoField, schema, m, declared)
  }

  lemma InexactDiffers(geo: Option<Geo>, geoField: string, m: Message, k: string)
    requires k in m && m[k].Number? && Float64.Float64(m[k].n) != m[k].n
    ensures Expected(geo, geoField, AsIs(m), m.Keys) != Expected(geo, geoField, AsFloats(m), m.Keys)
  {
    var a, b := Expected(geo, geoField, AsIs(m), m.Keys), Expected(geo, geoField, AsFloats(m), m.Keys);
    if k == "Timestamp" {
      assert a.timestamp != b.timestamp;
    } else {
      assert a.fields[k] != b.fields[k];
    }
  }

  lemma SameCompatible(geo: Option<Geo>, geoField: string, m: Message)
    ensures Compatible(geo, geoField, AsIs(m)) <==> Compatible(geo, geoField, AsFloats(m))
  {
    var a, b := AsIs(m), AsFloats(m);
    assert forall k :: k in m && m[k].Characters? ==> a[k] == b[k];
    assert forall k :: OwnTag(geo, geoField, a, k) <==> OwnTag(geo, geoField, b, k);
    assert Answer(geo, geoField, a) == Answer(geo, geoField, b);
  }

  lemma AllWalksExpected(geo: Option<Geo>, geoField: string, f: Struct)
    requires Compatible(geo, geoField, f)
    ensures forall a :: Enumerates(a, f.Keys) ==> PointOver(geo, geoField, f, a) == Expected(geo, geoField, f, f.Keys)
  {
    OrderDoesNotMatter(geo, geoField, f);
  }

  lemma ExactAgrees(geo: Option<Geo>, geoField: string, schema: Schema, m: Message, declared: seq<string>)
    requires Conforms(schema, m) && Declared(schema, declared) && Compatible(geo, geoField, AsFloats(m)) && AllExact(m)
    ensures AllAgree(geo, geoField, schema, m, declared)
  {
    assert AsIs(m) == AsFloats(m) && AsFloats(m).Keys == m.Keys;
    PassIsExpected(geo, geoField, schema, m, declared);
    AllWalksExpected(geo, geoField, AsFloats(m));
  }

  lemma InexactDisagrees(geo: Option<Geo>, geoField: string, schema: Schema, m: Message, declared: seq<string>)
    requires Conforms(schema, m) && Declared(schema, declared) && Compatible(geo, geoField, AsFloats(m)) && !AllExact(m)
    ensures !AllAgree(geo, geoField, schema, m, declared)
  {
    var k :| k in m && m[k].Number? && Float64.Float64(m[k].n) != m[k].n;
    assert AsFloats(m).Keys == m.Keys;
    SameCompatible(geo, geoField, m);
    InexactDiffers(geo, geoField, m, k);
    PassIsExpected(geo, geoField, schema, m, declared);
    AllWalksExpected(geo, geoField, AsFloats(m));
    var some := SomeOrder(AsFloats(m).Keys);
    assert PointOver(geo, geoField, AsFloats(m), some) == Expected(geo, geoField, AsFloats(m), m.Keys);
  }

  /** The plain message's point is that of the struct message and of the JSON record, whatever order their maps are
      walked in, if and only if no geo tag contradicts a tag of the record and every number survives float64. */
  lemma MessagePointAgrees(geo: Option<Geo>, geoField: string, schema: Schema, m: Message, declared: seq<string>)
    requires Conforms(schema, m) && Declared(schema, declared)
    ensures AllAgree(geo, geoField, schema, m, declared) <==> Compatible(geo, geoField, AsFloats(m)) && AllExact(m)
  {
    if Compatible(geo, geoField, AsFloats(m)) {
      if AllExact(m) {
        ExactAgrees(geo, geoField, schema, m, declared);
      } else {
        InexactDisagrees(geo, geoField, schema, m, declared);
      }
    } else {
      OrderDoesNotMatter(geo, geoField, AsFloats(m));
      assert AllAgree(geo, geoField, schema, m, declared) ==> OrderFree(geo, geoField, AsFloats(m));
    }
  }
}
