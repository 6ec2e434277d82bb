/** Validation of the configured field lists (tcpdog/helper.go, ebpf/data.go). */
module Config {
  import opened Text
  import opened Fields
  import opened Filters
  import opened Program
  import opened Names

  // ---------------------------------------------------------------- field names

  /** The lower-case spellings of the table's names lead to names of the table; `toLower` stands for strings.ToLower. */
  datatype Tables = Tables(model: Model, lower: map<string, string>, toLower: string -> string)

  predicate Sound(tables: Tables) {
    && "" !in tables.model && "" !in tables.lower && tables.toLower("") == ""
    && forall k :: k in tables.lower ==> tables.lower[k] in tables.model
  }

  /** The loop of init, in whatever order the table is walked; two names with one lower-case spelling would make it
      matter. */
  method MakeTables(model: Model, toLower: string -> string) returns (tables: Tables)
    requires "" !in model && toLower("") == "" && forall s :: toLower(s) == "" ==> s == ""
    ensures tables.model == model && tables.toLower == toLower && Sound(tables)
    ensures forall k :: k in model ==> toLower(k) in tables.lower
    ensures forall l :: l in tables.lower ==> toLower(tables.lower[l]) == l
  {
    var lower: map<string, string> := map[];
    var todo := model.Keys;
    while todo != {}
      invariant todo <= model.Keys
      invariant forall l :: l in lower ==> lower[l] in model && toLower(lower[l]) == l
      invariant forall k :: k in model && k !in todo ==> toLower(k) in lower
      decreases todo
    {
      var k :| k in todo;
      lower := lower[toLower(k) := k];
      todo := todo - {k};
    }
    tables := Tables(model, lower, toLower);
  }

  /** toLower is ASCII lower-casing on ASCII text. */
  ghost predicate LowersAscii(toLower: string -> string) {
    && (forall s :: AllAscii(s) ==> toLower(s) == AsciiLower(s))
    && (forall s :: toLower(s) == "" ==> s == "")
  }

  predicate AllAscii(s: string) {
    forall i :: 0 <= i < |s| ==> s[i] < 128 as char
  }

  /** Validation finds a name from a spelling exactly if they differ in case alone. */
  ghost predicate CaseBlind(tables: Tables) {
    forall f, k :: ValidateField(tables, f) == Some(k) <==> k in tables.model && tables.toLower(f) == tables.toLower(k)
  }

  lemma TableNameIsLowered(toLower: string -> string, name: string)
    requires LowersAscii(toLower) && name in FieldsModel4()
    ensures toLower(name) == AsciiLower(name)
  {
    NamesAreWords(name);
    assert AllAscii(name);
  }

  lemma LowersApart(toLower: string -> string, a: string, b: string)
    requires LowersAscii(toLower) && a in FieldsModel4() && b in FieldsModel4() && toLower(a) == toLower(b)
    ensures a == b
  {
    TableNameIsLowered(toLower, a);
    TableNameIsLowered(toLower, b);
    SpellingsAreUnique(a, b);
  }

  /** The tables of the actual 53 fields: whatever order init walks them in, every spelling leads to its name and
      nothing else leads anywhere. */
  method InitTables(toLower: string -> string) returns (tables: Tables)
    requires LowersAscii(toLower)
    ensures Sound(tables) && tables.model == FieldsModel4() && tables.toLower == toLower
    ensures CaseBlind(tables)
  {
    EmptyIsNoName();
    assert AllAscii("") && AsciiLower("") == "";
    tables := MakeTables(FieldsModel4(), toLower);
    ghost var model := tables.model;
    forall a, b | a in model && b in model && toLower(a) == toLower(b)
      ensures a == b
    {
      LowersApart(toLower, a, b);
    }
    UniqueIsCaseBlind(tables);
  }

  lemma EmptyIsNoName()
    ensures "" !in FieldsModel4()
  {
    if "" in FieldsModel4() {
      NamesAreWords("");
    }
  }

  lemma UniqueIsCaseBlind(tables: Tables)
    requires forall a, b :: a in tables.model && b in tables.model && tables.toLower(a) == tables.toLower(b) ==> a == b
    requires forall k :: k in tables.model ==> tables.toLower(k) in tables.lower
    requires forall l :: l in tables.lower ==> tables.lower[l] in tables.model && tables.toLower(tables.lower[l]) == l
    ensures CaseBlind(tables)
  {
  }

  function ValidateField(tables: Tables, f: string): Option<string> {
    if f in tables.model then Some(f)
    else if tables.toLower(f) in tables.lower then Some(tables.lower[tables.toLower(f)])
    else None
  }

  /** The canonical form of one entry: its name as the table spells it, in the filter too. */
  function Canonical(tables: Tables, f: ConfigField): Option<ConfigField>
    requires Sound(tables)
  {
    match ValidateField(tables, f.name)
    case None => None
    case Some(name) => Some(f.(name := name, filter := Replace(f.filter, f.name, name)))
  }

  /** What validation makes of an entry: a name of the table with the same lower-case spelling, put for the old one in
      the filter; the math stays. */
  predicate RespelledEntry(tables: Tables, was: ConfigField, now: ConfigField) {
    && now.name in tables.model && was.name != ""
    && (was.name in tables.model ==> now.name == was.name)
    && (was.name !in tables.model ==>
          tables.toLower(was.name) in tables.lower && now.name == tables.lower[tables.toLower(was.name)])
    && now.math == was.math && now.filter == Replace(was.filter, was.name, now.name)
  }

  ghost predicate Respelled(tables: Tables, was: seq<ConfigField>, now: seq<ConfigField>) {
    |now| == |was| && forall i :: 0 <= i < |was| ==> RespelledEntry(tables, was[i], now[i])
  }

  /** Entries become canonical in order, up to the first that is unknown. */
  function Validated(tables: Tables, fields: seq<ConfigField>): (r: (seq<ConfigField>, bool))
    requires Sound(tables)
    ensures |r.0| == |fields|
  {
    if fields == [] then ([], true)
    else
      match Canonical(tables, fields[0])
      case None => (fields, false)
      case Some(f) =>
        var (rest, ok) := Validated(tables, fields[1..]);
        ([f] + rest, ok)
  }

  lemma CanonicalIsRespelled(tables: Tables, f: ConfigField, c: ConfigField)
    requires Sound(tables) && Canonical(tables, f) == Some(c)
    ensures RespelledEntry(tables, f, c)
  {
  }

  lemma RespelledFirst(tables: Tables, f: ConfigField, c: ConfigField, was: seq<ConfigField>, now: seq<ConfigField>)
    requires Sound(tables) && Canonical(tables, f) == Some(c) && Respelled(tables, was, now)
    ensures Respelled(tables, [f] + was, [c] + now)
  {
    forall i | 0 <= i < |was| + 1
      ensures RespelledEntry(tables, ([f] + was)[i], ([c] + now)[i])
    {
      if i == 0 {
        CanonicalIsRespelled(tables, f, c);
      } else {
        assert ([f] + was)[i] == was[i - 1] && ([c] + now)[i] == now[i - 1];
      }
    }
  }

  /** Entries are respelled up to the first that has no name of the table; it and those after it stay. */
  lemma {:induction false} ValidatedUpTo(tables: Tables, fields: seq<ConfigField>) returns (k: nat)
    requires Sound(tables)
    ensures var r := Validated(tables, fields);
            && k <= |fields| && (r.1 <==> k == |fields|)
            && Respelled(tables, fields[..k], r.0[..k]) && r.0[k..] == fields[k..]
            && (k < |fields| ==> ValidateField(tables, fields[k].name) == None)
  {
    k := 0;
    if fields != [] && Canonical(tables, fields[0]).Some? {
      var c := Canonical(tables, fields[0]).value;
      var rest := Validated(tables, fields[1..]).0;
      k := ValidatedUpTo(tables, fields[1..]);
      RespelledFirst(tables, fields[0], c, fields[1..][..k], rest[..k]);
      assert [fields[0]] + fields[1..][..k] == fields[..k + 1] && fields[1..][k..] == fields[k + 1..];
      assert [c] + rest[..k] == ([c] + rest)[..k + 1] && ([c] + rest)[k + 1..] == rest[k..];
      k := k + 1;
    }
  }

  lemma ValidatedIsRespelled(tables: Tables, fields: seq<ConfigField>)
    requires Sound(tables) && Validated(tables, fields).1
    ensures Respelled(tables, fields, Validated(tables, fields).0)
  {
    var k := ValidatedUpTo(tables, fields);
    assert fields[..k] == fields && Validated(tables, fields).0[..k] == Validated(tables, fields).0;
  }

  /** A canonical entry stays as it is. */
  lemma CanonicalIsFixed(tables: Tables, f: ConfigField)
    requires Sound(tables) && Canonical(tables, f).Some?
    ensures var c := Canonical(tables, f).value;
            c.name in tables.model && c.name != "" && Canonical(tables, c) == Some(c)
  {
    var c := Canonical(tables, f).value;
    ReplaceSame(c.filter, c.name);
  }

  /** Validating a list again, as happens when tracepoints share it, changes nothing; a valid list can be generated
      from. */
  lemma {:induction false} ValidationIsIdempotent(tables: Tables, fields: seq<ConfigField>)
    requires Sound(tables) && Validated(tables, fields).1
    ensures var once := Validated(tables, fields).0;
            Validated(tables, once) == (once, true) && Selectable(tables.model, once)
  {
    if fields != [] {
      var c := Canonical(tables, fields[0]).value;
      var rest := Validated(tables, fields[1..]).0;
      CanonicalIsFixed(tables, fields[0]);
      ValidationIsIdempotent(tables, fields[1..]);
      assert ([c] + rest)[1..] == rest;
      assert forall i :: 0 <= i < |rest| ==> ([c] + rest)[i + 1] == rest[i];
    }
  }

  class Config {
    var fields: map<string, seq<ConfigField>>

    constructor (fields: map<string, seq<ConfigField>>)
      ensures this.fields == fields
    {
      this.fields := fields;
    }

    /** validateFields: rewrites a template in place. */
    method ValidateFields(tables: Tables, name: string) returns (ok: bool)
      requires Sound(tables)
      modifies this
      ensures fields.Keys == old(fields).Keys
      ensures forall n :: n in fields && n != name ==> fields[n] == old(fields)[n]
      ensures name !in fields ==> !ok
      ensures name in fields ==> (fields[name], ok) == Validated(tables, old(fields)[name])
      ensures ok ==> Respelled(tables, old(fields)[name], fields[name])
      ensures !ok && name in fields ==>
                exists k :: 0 <= k < |fields[name]| == |old(fields)[name]|
                  && Respelled(tables, old(fields)[name][..k], fields[name][..k])
                  && ValidateField(tables, old(fields)[name][k].name) == None
                  && fields[name][k..] == old(fields)[name][k..]
    {
      if name !in fields {
        return false;
      }
      ghost var all := fields[name];
      ghost var whole := Validated(tables, all);
      var n := |fields[name]|;
      assert all[0..] == all && all[..0] + whole.0 == whole.0;
      for i := 0 to n
        invariant fields.Keys == old(fields).Keys && name in fields && |fields[name]| == n
        invariant forall m :: m in fields && m != name ==> fields[m] == old(fields)[m]
        invariant fields[name][i..] == all[i..]
        invariant whole == (fields[name][..i] + Validated(tables, all[i..]).0, Validated(tables, all[i..]).1)
      {
        var f := fields[name][i];
        ghost var now := fields[name];
        assert f == all[i..][0] && all[i..][1..] == all[i + 1..];
        match ValidateField(tables, f.name)
        case None =>
          assert now == now[..i] + now[i..];
          ghost var k := ValidatedUpTo(tables, all);
          assert (fields[name], false) == whole;
          return false;
        case Some(cf) =>
          var c := f.(name := cf, filter := Replace(f.filter, f.name, cf));
          fields := fields[name := fields[name][i := c]];
          assert fields[name][..i + 1] == now[..i] + [c];
          ConcatAssoc(now[..i], [c], Validated(tables, all[i + 1..]).0);
      }
      assert fields[name][..n] == fields[name];
      assert fields[name][..n] + [] == fields[name];
      ValidatedIsRespelled(tables, all);
      return true;
    }

    /** The loop of validate over the tracepoints' templates: each template ends up validated once, however many share
        it. */
    method ValidateTemplates(tables: Tables, templates: seq<string>) returns (ok: bool)
      requires Sound(tables)
      modifies this
      ensures ok ==> forall t :: t in templates ==>
                t in old(fields) && t in fields && Validated(tables, old(fields)[t]) == (fields[t], true)
      ensures ok ==> forall t :: t in templates ==> t in fields && Selectable(tables.model, fields[t])
      ensures ok ==> forall t :: t in templates ==>
                t in old(fields) && t in fields && Respelled(tables, old(fields)[t], fields[t])
      ensures ok ==> forall t :: t in old(fields) && t !in templates ==> t in fields && fields[t] == old(fields)[t]
    {
      for i := 0 to |templates|
        invariant fields.Keys == old(fields).Keys
        invariant forall t :: t in templates[..i] ==>
                    t in fields && Validated(tables, old(fields)[t]) == (fields[t], true)
        invariant forall t :: t in fields && t !in templates[..i] ==> fields[t] == old(fields)[t]
      {
        ghost var before := fields;
        var t := templates[i];
        ok := ValidateFields(tables, t);
        if !ok {
          return;
        }
        if t in templates[..i] {
          ValidationIsIdempotent(tables, old(fields)[t]);
        }
        assert forall u :: u in templates[..i + 1] <==> u in templates[..i] || u == t;
      }
      forall t | t in templates
        ensures t in fields && Selectable(tables.model, fields[t]) && Respelled(tables, old(fields)[t], fields[t])
      {
        assert t in templates[..|templates|];
        ValidatedIsRespelled(tables, old(fields)[t]);
        ValidationIsIdempotent(tables, old(fields)[t]);
      }
      ok := true;
    }
  }
}
