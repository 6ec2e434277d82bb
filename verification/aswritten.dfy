/** Filters as the user wrote them: what the generated program does is what the configuration says, when names are
    clear. */
module AsWritten {
  import opened Text
  import opened Fields
  import opened Filters
  import opened Atoms
  import opened Names
  import opened Program
  import opened Sampling
  import opened Relay
  import opened CGen
  import Config
  import Counter

  // ---------------------------------------------------------------- names of fields and of members do not mix

  lemma MemberNameChars(c: string, i: nat)
    requires CName(c)
    ensures IsWord(c + FormatUint(i)) && forall k :: 0 <= k < |c + FormatUint(i)| ==> LowerChar((c + FormatUint(i))[k])
  {
    FormatUintIsDigits(i);
  }

  lemma NoCapitals(m: string, name: string)
    requires name != "" && Capital(name[0]) && forall k :: 0 <= k < |m| ==> LowerChar(m[k])
    ensures !Contains(m, name)
  {
    forall i | 0 <= i <= |m|
      ensures !StartsWith(m[i..], name)
    {
      var t := m[i..];
      assert |t| > 0 ==> t[0] == m[i];
      assert |name| <= |t| ==> t[..|name|][0] == t[0];
    }
  }

  lemma NotLikeData(v4: bool, c: string, i: nat)
    requires CName(c)
    ensures !EndsWith(c + FormatUint(i), Data(v4))
  {
    var m, d := c + FormatUint(i), FormatUint(i);
    FormatUintIsDigits(i);
    if |m| >= 5 {
      var end := m[|m| - 5..];
      assert end[3] == m[|m| - 2] && Data(v4)[3] == 'a';
      assert m[|m| - 2] == if |d| == 1 then c[|c| - 1] else d[|d| - 2];
    }
  }

  lemma CommIsApart(v4: bool, name: string)
    requires name != "" && Capital(name[0])
    ensures IsWord(COMM_FIELD) && !Contains(COMM_FIELD, name) && !EndsWith(COMM_FIELD, Data(v4))
  {
    NoCapitals(COMM_FIELD, name);
    assert COMM_FIELD[|COMM_FIELD| - 5..][4] == 'm';
  }

  lemma CNamesOfTable(v4: bool, name: string)
    requires name in TableOf(v4)
    ensures CName(TableOf(v4)[name].cField)
  {
    if v4 {
      MembersHaveCNames4(name);
    } else {
      MembersHaveCNames6(name);
    }
  }

  predicate MemberApart(v4: bool, m: string, name: string) {
    IsWord(m) && !Contains(m, name) && !EndsWith(m, Data(v4))
  }

  lemma MemberIsApart(v4: bool, a: FieldAttrs, i: nat, name: string)
    requires CName(a.cField) && name != "" && Capital(name[0])
    ensures MemberApart(v4, MemberName(a, i), name)
  {
    if a.cField == COMM_FIELD {
      CommIsApart(v4, name);
    } else {
      MemberNameChars(a.cField, i);
      NoCapitals(a.cField + FormatUint(i), name);
      NotLikeData(v4, a.cField, i);
    }
  }

  lemma RequestedCNames(v4: bool, fields: seq<ConfigField>)
    requires Selectable(TableOf(v4), fields)
    ensures AllCNames(ReqFields(v4, fields))
  {
    forall j | 0 <= j < |fields|
      ensures CName(ReqFields(v4, fields)[j].attrs.cField)
    {
      CNamesOfTable(v4, fields[j].name);
    }
  }

  predicate AllCNames(req: seq<ReqField>) {
    forall j :: 0 <= j < |req| ==> CName(req[j].attrs.cField)
  }

  lemma MembersAreApart(v4: bool, req: seq<ReqField>, name: string, m: string)
    requires AllCNames(req) && name != "" && Capital(name[0]) && m in NamesBelow(req, |req|)
    ensures MemberApart(v4, m, name) && !AllLetters(m)
  {
    var j :| 0 <= j < |req| && MemberName(req[j].attrs, j) == m;
    MemberIsApart(v4, req[j].attrs, j, name);
    FormatUintIsDigits(j);
    assert !Letter(COMM_FIELD[7]);
    assert m != COMM_FIELD ==> IsDigit(m[|m| - 1]) && !Letter(m[|m| - 1]);
  }

  /** The record has exactly the members of the requested fields. */
  ghost predicate HasMembers(v4: bool, fields: seq<ConfigField>, rec: Record)
    requires Selectable(TableOf(v4), fields)
  {
    rec.Keys == NamesBelow(ReqFields(v4, fields), |fields|)
  }

  lemma NameIsApart(v4: bool, req: seq<ReqField>, name: string, rec: Record)
    requires AllCNames(req) && IsWord(name) && Capital(name[0]) && rec.Keys == NamesBelow(req, |req|)
    ensures Apart(name, Data(v4), rec)
  {
    NoCapitals(Data(v4), name);
    forall m | m in rec
      ensures MemberApart(v4, m, name)
    {
      MembersAreApart(v4, req, name, m);
    }
  }

  lemma TableNameIsApart(v4: bool, fields: seq<ConfigField>, name: string, rec: Record)
    requires Selectable(TableOf(v4), fields) && HasMembers(v4, fields, rec) && name in FieldsModel4()
    ensures Apart(name, Data(v4), rec)
  {
    NamesAreWords(name);
    NamesAreCapitalised(name);
    RequestedCNames(v4, fields);
    NameIsApart(v4, ReqFields(v4, fields), name, rec);
  }

  // ---------------------------------------------------------------- one filter

  /** The filter mentions the field's name only as a whole word, and the task's name not at all. */
  predicate Clear(f: ConfigField) {
    OnlyWhole(Tokens(f.filter), f.name) && (f.name in Tokens(f.filter) ==> f.name != "Task")
  }

  function Target(v4: bool, fields: seq<ConfigField>, i: nat): string
    requires Selectable(TableOf(v4), fields) && i < |fields|
  {
    ReqFields(v4, fields)[i].attrs.cField + FormatUint(i)
  }

  lemma TargetIsThere(v4: bool, fields: seq<ConfigField>, i: nat, rec: Record)
    requires Selectable(TableOf(v4), fields) && i < |fields| && HasMembers(v4, fields, rec)
    ensures Target(v4, fields, i) in rec <==> fields[i].name != "Task"
    ensures fields[i].name != "Task" ==> Target(v4, fields, i) == MemberName(ReqFields(v4, fields)[i].attrs, i)
    ensures |fields[i].name| < |Data(v4)| + 1 + |Target(v4, fields, i)| && IsWord(Target(v4, fields, i))
  {
    var req := ReqFields(v4, fields);
    TableIsGenerable(v4, fields[i].name);
    CNamesOfTable(v4, fields[i].name);
    MemberNameChars(req[i].attrs.cField, i);
    FormatUintIsDigits(i);
    forall j | 0 <= j < |fields|
      ensures GoodCField(req[j].attrs.cField)
    {
      TableIsGenerable(v4, fields[j].name);
    }
    FilterTargetIsDeclared(v4, req, i);
    var t := Target(v4, fields, i);
    forall j | 0 <= j < |fields|
      ensures Prefix(v4) + t == Prefix(v4) + MemberName(req[j].attrs, j) <==> t == MemberName(req[j].attrs, j)
    {
      var m := MemberName(req[j].attrs, j);
      assert (Prefix(v4) + t)[6..] == t && (Prefix(v4) + m)[6..] == m;
    }
  }

  /** The generated condition, on the record, is the user's with the field's name standing for the field's value, if
      and only if the filter is clear. */
  lemma FilterKeepsMeaning(v4: bool, fields: seq<ConfigField>, i: nat, rec: Record, value: seq<Byte>)
    requires Selectable(TableOf(v4), fields) && i < |fields| && HasMembers(v4, fields, rec)
    requires Target(v4, fields, i) in rec ==> rec[Target(v4, fields, i)] == value
    ensures Read(Tokens(ReqFields(v4, fields)[i].filter), map[], Data(v4), rec)
         == Read(Tokens(fields[i].filter), map[fields[i].name := value], Data(v4), rec)
       <==> Clear(fields[i])
  {
    var f := fields[i];
    TableNameIsApart(v4, fields, f.name, rec);
    TargetIsThere(v4, fields, i, rec);
    FilterReads(f.filter, f.name, Data(v4), Target(v4, fields, i), rec, value);
    assert Prefix(v4) + Target(v4, fields, i) == Data(v4) + "." + Target(v4, fields, i);
  }

  lemma NotAtInData(v4: bool, spelled: string, name: string, i: nat)
    requires AsciiLower(spelled) == AsciiLower(name) && name in FieldsModel4() && AllLetters(spelled)
    requires i <= 5
    ensures !StartsWith(Data(v4)[i..], spelled)
  {
    var d, n := Data(v4), |spelled|;
    SameCaseBlind(spelled, name, 0);
    if n <= 4 {
      ShortNames(name);
    }
    assert !Letter(d[4]) && Letter(spelled[n - 1]);
    assert forall k :: 0 <= k < n && i + n <= 5 ==> d[i..][..n][k] == d[i + k];
    assert i + n == 5 && n >= 1 ==> d[i..][..n][n - 1] == d[4];
  }

  /** No spelling of a field's name is part of the record's name. */
  lemma SpellingNotInData(v4: bool, spelled: string, name: string)
    requires AsciiLower(spelled) == AsciiLower(name) && name in FieldsModel4() && AllLetters(spelled)
    ensures !Contains(Data(v4), spelled)
  {
    forall i | 0 <= i <= |Data(v4)|
      ensures !StartsWith(Data(v4)[i..], spelled)
    {
      NotAtInData(v4, spelled, name, i);
    }
  }

  lemma GoodSpellingReads(v4: bool, s: string, spelled: string, name: string, fields: seq<ConfigField>, rec: Record,
                          value: seq<Byte>)
    requires Selectable(TableOf(v4), fields) && HasMembers(v4, fields, rec) && name in FieldsModel4()
    requires AsciiLower(spelled) == AsciiLower(name) && spelled != ""
    requires spelled == name || OnlyWhole(Tokens(s), spelled)
    ensures Read(Tokens(Replace(s, spelled, name)), map[name := value], Data(v4), rec)
         == Read(Tokens(s), map[spelled := value, name := value], Data(v4), rec)
  {
    SpelledLikeName(v4, spelled, name, fields, rec);
    RespellingRenames(s, spelled, name);
    if spelled == name {
      assert map[name := value, name := value] == map[name := value];
    } else {
      RespelledReads(Tokens(s), spelled, name, Data(v4), rec, value);
    }
  }

  lemma SpellingIsOne(v4: bool, spelled: string, name: string)
    requires AsciiLower(spelled) == AsciiLower(name) && name in FieldsModel4() && AllLetters(spelled)
    requires spelled != name && |spelled| == |name|
    ensures Spelling(spelled, name, Data(v4))
  {
    SpellingNotInData(v4, spelled, name);
    NamesAreCapitalised(name);
  }

  lemma BadSpellingDiffers(v4: bool, s: string, spelled: string, fields: seq<ConfigField>, i: nat, rec: Record,
                           value: seq<Byte>)
    requires Selectable(TableOf(v4), fields) && i < |fields| && HasMembers(v4, fields, rec)
    requires Target(v4, fields, i) in rec ==> rec[Target(v4, fields, i)] == value
    requires AsciiLower(spelled) == AsciiLower(fields[i].name) && spelled != fields[i].name && spelled != ""
    requires fields[i].filter == Replace(s, spelled, fields[i].name) && !OnlyWhole(Tokens(s), spelled)
    ensures Read(Tokens(ReqFields(v4, fields)[i].filter), map[], Data(v4), rec)
         != Read(Tokens(s), map[spelled := value, fields[i].name := value], Data(v4), rec)
    ensures !Clear(fields[i])
  {
    var name, member := fields[i].name, Target(v4, fields, i);
    SpelledLikeName(v4, spelled, name, fields, rec);
    TableNameIsApart(v4, fields, name, rec);
    TargetIsThere(v4, fields, i, rec);
    SpellingIsOne(v4, spelled, name);
    RespelledDiffers(s, spelled, name, Data(v4), member, rec, value);
    assert Prefix(v4) + member == Data(v4) + "." + member;
  }

  /** The same from the user's own spelling of the name, which validation replaces first. */
  lemma SpellingKeepsMeaning(v4: bool, raw: ConfigField, fields: seq<ConfigField>, i: nat, rec: Record,
                             value: seq<Byte>)
    requires Selectable(TableOf(v4), fields) && i < |fields| && HasMembers(v4, fields, rec)
    requires Target(v4, fields, i) in rec ==> rec[Target(v4, fields, i)] == value
    requires AsciiLower(raw.name) == AsciiLower(fields[i].name) && raw.name != ""
    requires fields[i].filter == Replace(raw.filter, raw.name, fields[i].name)
    ensures Read(Tokens(ReqFields(v4, fields)[i].filter), map[], Data(v4), rec)
         == Read(Tokens(raw.filter), map[raw.name := value, fields[i].name := value], Data(v4), rec)
       <==> Clear(fields[i])
  {
    if raw.name == fields[i].name || OnlyWhole(Tokens(raw.filter), raw.name) {
      FilterKeepsMeaning(v4, fields, i, rec, value);
      GoodSpellingReads(v4, raw.filter, raw.name, fields[i].name, fields, rec, value);
    } else {
      BadSpellingDiffers(v4, raw.filter, raw.name, fields, i, rec, value);
    }
  }

  lemma SameCaseBlind(a: string, b: string, k: nat)
    requires AsciiLower(a) == AsciiLower(b) && k < |a|
    ensures |a| == |b| && LowerOf(a[k]) == LowerOf(b[k])
  {
    assert AsciiLower(a)[k] == LowerOf(a[k]) && |AsciiLower(a)| == |AsciiLower(b)|;
  }

  /** However a field's name is spelled, it is letters only, so no member and not the record. */
  lemma SpelledLikeName(v4: bool, spelled: string, name: string, fields: seq<ConfigField>, rec: Record)
    requires AsciiLower(spelled) == AsciiLower(name) && spelled != "" && name in FieldsModel4()
    requires Selectable(TableOf(v4), fields) && HasMembers(v4, fields, rec)
    ensures IsWord(spelled) && IsWord(name) && |spelled| == |name| && AllLetters(spelled)
    ensures Unlike(spelled, Data(v4), rec) && Unlike(name, Data(v4), rec)
  {
    NamesAreWords(name);
    forall k | 0 <= k < |spelled|
      ensures |spelled| == |name| && Letter(spelled[k])
    {
      SameCaseBlind(spelled, name, k);
    }
    LettersAreUnlike(v4, spelled, fields, rec);
    LettersAreUnlike(v4, name, fields, rec);
  }

  lemma LettersAreUnlike(v4: bool, s: string, fields: seq<ConfigField>, rec: Record)
    requires AllLetters(s) && Selectable(TableOf(v4), fields) && HasMembers(v4, fields, rec)
    ensures Unlike(s, Data(v4), rec)
  {
    assert !Letter(Data(v4)[4]) && !Letter("."[0]);
    RequestedCNames(v4, fields);
    if s in rec {
      MembersAreApart(v4, ReqFields(v4, fields), "X", s);
    }
  }

  // ---------------------------------------------------------------- what validation makes of a list

  /** On any record, the condition generated for entry i of the validated list reads as the filter that the user wrote
      for it, exactly if the respelled filter is clear. */
  ghost predicate ReadsAsWritten(v4: bool, raw: ConfigField, fields: seq<ConfigField>, i: nat)
    requires Selectable(TableOf(v4), fields) && i < |fields|
  {
    forall rec, value ::
      HasMembers(v4, fields, rec) && (Target(v4, fields, i) in rec ==> rec[Target(v4, fields, i)] == value) ==>
        (Read(Tokens(ReqFields(v4, fields)[i].filter), map[], Data(v4), rec)
           == Read(Tokens(raw.filter), map[raw.name := value, fields[i].name := value], Data(v4), rec)
         <==> Clear(fields[i]))
  }

  lemma AsciiNames(toLower: string -> string, was: string, now: string)
    requires Config.LowersAscii(toLower) && toLower(was) == toLower(now)
    requires now in FieldsModel4() && Config.AllAscii(was)
    ensures AsciiLower(was) == AsciiLower(now)
  {
    Config.TableNameIsLowered(toLower, now);
  }

  lemma SameSpelling(tables: Config.Tables, was: ConfigField, now: ConfigField)
    requires Config.CaseBlind(tables) && Config.RespelledEntry(tables, was, now)
    ensures tables.toLower(was.name) == tables.toLower(now.name)
  {
    assert Config.ValidateField(tables, was.name) == Some(now.name);
  }

  /** What a configuration should be able to count on after validation, for one entry: only the case of the name has
      changed, the math has not, and the generated condition is what the user wrote. */
  ghost predicate Faithful(v4: bool, was: ConfigField, fields: seq<ConfigField>, i: nat)
    requires Selectable(TableOf(v4), fields) && i < |fields|
  {
    AsciiLower(was.name) == AsciiLower(fields[i].name) && fields[i].math == was.math
    && ReadsAsWritten(v4, was, fields, i)
  }

  lemma EntryIsFaithful(tables: Config.Tables, v4: bool, was: ConfigField, fields: seq<ConfigField>, i: nat)
    requires Config.CaseBlind(tables) && Config.LowersAscii(tables.toLower) && tables.model == FieldsModel4()
    requires Selectable(TableOf(v4), fields) && i < |fields| && Config.RespelledEntry(tables, was, fields[i])
    requires Config.AllAscii(was.name)
    ensures Faithful(v4, was, fields, i)
  {
    SameSpelling(tables, was, fields[i]);
    AsciiNames(tables.toLower, was.name, fields[i].name);
    forall rec, value |
      HasMembers(v4, fields, rec) && (Target(v4, fields, i) in rec ==> rec[Target(v4, fields, i)] == value)
      ensures Read(Tokens(ReqFields(v4, fields)[i].filter), map[], Data(v4), rec)
           == Read(Tokens(was.filter), map[was.name := value, fields[i].name := value], Data(v4), rec)
         <==> Clear(fields[i])
    {
      SpellingKeepsMeaning(v4, was, fields, i, rec, value);
    }
  }

  lemma SelectableByTable(v4: bool, fields: seq<ConfigField>)
    requires Selectable(FieldsModel4(), fields)
    ensures Selectable(TableOf(v4), fields)
  {
  }

  /** A template that validates, for either family: as many entries as before, each faithful to what the user wrote. */
  method Validate(c: Config.Config, toLower: string -> string, template: string) returns (ok: bool)
    requires Config.LowersAscii(toLower)
    modifies c
    ensures ok ==>
              && template in old(c.fields) && template in c.fields
              && |c.fields[template]| == |old(c.fields)[template]|
              && (forall v4 :: Selectable(TableOf(v4), c.fields[template]))
              && forall v4, i :: 0 <= i < |c.fields[template]| && Config.AllAscii(old(c.fields)[template][i].name) ==>
                   Faithful(v4, old(c.fields)[template][i], c.fields[template], i)
  {
    var tables := Config.InitTables(toLower);
    ok := c.ValidateFields(tables, template);
    if ok {
      ghost var was, now := old(c.fields)[template], c.fields[template];
      Config.ValidationIsIdempotent(tables, was);
      SelectableByTable(true, now);
      SelectableByTable(false, now);
      forall v4, i | 0 <= i < |now| && Config.AllAscii(was[i].name)
        ensures Faithful(v4, was[i], now, i)
      {
        EntryIsFaithful(tables, v4, was[i], now, i);
      }
    }
  }

  // ---------------------------------------------------------------- all filters, and what is submitted

  /** Some filter, as written, holds of the event: the field's own name stands for its value after all math. */
  ghost predicate FilteredAsWritten(v4: bool, fields: seq<ConfigField>, e: Event, rec: Record)
    requires Selectable(TableOf(v4), fields)
  {
    exists i :: 0 <= i < |fields| && fields[i].filter != "" && HoldsAsWritten(v4, fields, i, e, rec)
  }

  predicate HoldsAsWritten(v4: bool, fields: seq<ConfigField>, i: nat, e: Event, rec: Record)
    requires Selectable(TableOf(v4), fields) && i < |fields|
  {
    var value := Wanted(v4, ReqFields(v4, fields)[i], e);
    e.holds(Read(Tokens(fields[i].filter), map[fields[i].name := value], Data(v4), rec))
  }

  predicate AllClear(fields: seq<ConfigField>) {
    forall i :: 0 <= i < |fields| ==> Clear(fields[i])
  }

  lemma OneFilter(v4: bool, fields: seq<ConfigField>, i: nat, e: Event, rec: Record)
    requires Selectable(TableOf(v4), fields) && i < |fields| && Clear(fields[i])
    requires IsFull(v4, ReqFields(v4, fields), e, |fields|, rec)
    ensures var req := ReqFields(v4, fields);
            && (req[i].filter == "" <==> fields[i].filter == "")
            && (CondHolds(v4, req[i].filter, e, rec) <==> HoldsAsWritten(v4, fields, i, e, rec))
  {
    var req := ReqFields(v4, fields);
    TargetIsThere(v4, fields, i, rec);
    NamesAreWords(fields[i].name);
    FirstCharOfReplace(fields[i].filter, fields[i].name, FilterTarget(v4, req[i].attrs.cField, i));
    assert HoldsWanted(v4, req, i, e, rec);
    FilterKeepsMeaning(v4, fields, i, rec, Wanted(v4, req[i], e));
  }

  lemma FiltersAreAsWritten(v4: bool, fields: seq<ConfigField>, e: Event, rec: Record)
    requires Selectable(TableOf(v4), fields) && AllClear(fields)
    requires IsFull(v4, ReqFields(v4, fields), e, |fields|, rec)
    ensures Filtered(v4, ReqFields(v4, fields), e, rec) <==> FilteredAsWritten(v4, fields, e, rec)
  {
    var req := ReqFields(v4, fields);
    forall i | 0 <= i < |fields|
      ensures req[i].filter != "" && CondHolds(v4, req[i].filter, e, rec)
         <==> fields[i].filter != "" && HoldsAsWritten(v4, fields, i, e, rec)
    {
      OneFilter(v4, fields, i, e, rec);
    }
  }

  /** For a list of fields of the table with clear filters: in any run, an event is submitted if and only if, where the
      socket's state changes, its protocol is TCP and its new state the wanted one, its family is the list's and the
      list is not empty, no filter holds of it as written, and sampling lets its socket through; then the full record
      is. */
  lemma SubmissionAsWritten(tp: Tracepoint, v4: bool, fields: seq<ConfigField>, events: seq<Event>, n: nat)
    requires Selectable(TableOf(v4), fields) && OneTask(fields) && AllClear(fields)
    requires WellFormed(tp) && FieldsOf(tp, v4) == ReqFields(v4, fields) && n < |events|
    ensures var e, rec, samples := events[n], Wished(tp, v4, events[n]), StateAfter(tp, events, n).Of(v4);
            Submission(tp, v4, events, n)
            == if (tp.name == "sock__inet_sock_set_state" ==>
                     e.isTCP && (tp.tcpState == "TCP_ALL" || e.newState == tp.tcpState))
                  && e.family == (if v4 then 2 else 10) && fields != []
                  && !FilteredAsWritten(v4, fields, e, rec)
                  && Counter.Step(tp.sample, samples, e.sock).0
               then Some(rec) else None
  {
    var rec := Wished(tp, v4, events[n]);
    SubmissionMeaning(tp, v4, events, n);
    assert |FieldsOf(tp, v4)| == |fields|;
    FullRecordIsFull(v4, ReqFields(v4, fields), events[n], |fields|);
    FiltersAreAsWritten(v4, fields, events[n], rec);
  }
}
