/** The binary decoder of the agent (ebpf/decoder.go): one kernel struct in, one printed record out. */
module Decoding {
  import opened Text
  import opened Buffers
  import opened Fields

  // ---------------------------------------------------------------- printed values and records

  datatype Value = Num(n: nat) | Str(s: string)

  function ValueText(v: Value): string {
    match v
    case Num(n) => FormatUint(n)
    case Str(s) => "\"" + s + "\""
  }

  function Member(name: string, v: Value): string {
    "\"" + name + "\":" + ValueText(v) + ","
  }

  function Members(names: seq<string>, values: seq<Value>): string
    requires |names| == |values|
  {
    if names == [] then [] else Member(names[0], values[0]) + Members(names[1..], values[1..])
  }

  const TIMESTAMP_KEY := "\"Timestamp\":"

  function TimeText(now: int): string {
    TIMESTAMP_KEY + FormatInt(now) + "}"
  }

  function RecordText(names: seq<string>, values: seq<Value>, now: int): string
    requires |names| == |values|
  {
    "{" + (Members(names, values) + TimeText(now))
  }

  lemma RecordIsWritten(before: string, members: string, now: int)
    ensures before + "{" + members + ("\"" + "Timestamp" + "\"") + ":" + FormatInt(now) + "}"
         == before + ("{" + (members + TimeText(now)))
  {
  }

  lemma {:induction false} MembersSnoc(names: seq<string>, values: seq<Value>, name: string, v: Value)
    requires |names| == |values|
    ensures Members(names + [name], values + [v]) == Members(names, values) + Member(name, v)
  {
    if names == [] {
      assert names + [name] == [name] && values + [v] == [v];
      assert [name][1..] == [] && [v][1..] == [];
    } else {
      assert (names + [name])[1..] == names[1..] + [name];
      assert (values + [v])[1..] == values[1..] + [v];
      MembersSnoc(names[1..], values[1..], name, v);
    }
  }

  lemma {:induction false} MembersConcat(a: seq<string>, va: seq<Value>, b: seq<string>, vb: seq<Value>)
    requires |a| == |va| && |b| == |vb|
    ensures Members(a + b, va + vb) == Members(a, va) + Members(b, vb)
  {
    if a == [] {
      assert a + b == b && va + vb == vb;
    } else {
      assert (a + b)[1..] == a[1..] + b && (va + vb)[1..] == va[1..] + vb;
      MembersConcat(a[1..], va[1..], b, vb);
      ConcatAssoc(Member(a[0], va[0]), Members(a[1..], va[1..]), Members(b, vb));
    }
  }

  // Where a positional reader finds itself in a printed record.

  lemma AfterKey(name: string, v: Value, rest: string)
    ensures After(Member(name, v) + rest, |name| + 3) == ValueText(v) + "," + rest
  {
  }

  lemma RecordBody(names: seq<string>, values: seq<Value>, now: int)
    requires |names| == |values|
    ensures After(RecordText(names, values, now), 1) == Members(names, values) + TimeText(now)
  {
  }

  lemma AfterTimeKey(now: int)
    ensures After(TimeText(now), 12) == FormatInt(now) + "}"
  {
  }

  // ---------------------------------------------------------------- reading one slot, as the code does

  /** How decode can end: normally, in logger.Fatal, or in a Go index or slice panic. */
  datatype Failure = Fatal | Panic
  datatype Result<+T> = Ok(value: T) | Err(failure: Failure)

  const UINT16 := 0x1_0000

  /** `if c % k > 0 { c += k - c % k }` in uint16 arithmetic. */
  function Bump(c: nat, k: nat): nat
    requires k > 0
  {
    if c % k > 0 then (c + (k - c % k)) % UINT16 else c
  }

  /** encoding/binary: the unsigned integer whose bytes are b. */
  function LittleEndian(b: seq<Byte>): nat {
    if b == [] then 0 else (b[0] as nat) + 0x100 * LittleEndian(b[1..])
  }

  function BigEndian(b: seq<Byte>): nat {
    if b == [] then 0 else 0x100 * BigEndian(b[..|b| - 1]) + (b[|b| - 1] as nat)
  }

  function Unsigned(bigEndian: bool, b: seq<Byte>): nat {
    if bigEndian then BigEndian(b) else LittleEndian(b)
  }

  /** net.IP.String of four bytes. */
  function DottedDecimal(b: seq<Byte>): string
    requires |b| == 4
  {
    FormatUint(b[0]) + "." + FormatUint(b[1]) + "." + FormatUint(b[2]) + "." + FormatUint(b[3])
  }

  /** Four digit strings with a dot between them. */
  function Joined(d: seq<string>): string
    requires |d| == 4
  {
    d[0] + "." + d[1] + "." + d[2] + "." + d[3]
  }

  /** d spells the four numbers in order, each in digits and as nothing else. */
  predicate SpellsQuad(d: seq<string>, b: seq<int>) {
    |d| == |b| == 4 && forall k :: 0 <= k < 4 ==> d[k] != "" && AllDigits(d[k]) && DigitsValue(d[k]) == b[k]
  }

  /** A dotted quad in which a reader finds the four numbers in order. */
  ghost predicate IsDottedQuad(s: string, b: seq<int>) {
    exists d :: SpellsQuad(d, b) && s == Joined(d)
  }

  /** What is printed of four bytes is read as those bytes, first to last. */
  lemma DottedDecimalIsRead(b: seq<Byte>)
    requires |b| == 4
    ensures IsDottedQuad(DottedDecimal(b), b)
  {
    var d := [FormatUint(b[0]), FormatUint(b[1]), FormatUint(b[2]), FormatUint(b[3])];
    FormatUintIsDigits(b[0]);
    FormatUintIsDigits(b[1]);
    FormatUintIsDigits(b[2]);
    FormatUintIsDigits(b[3]);
    assert SpellsQuad(d, b) && DottedDecimal(b) == Joined(d);
  }

  /** The bytes before the first NUL. */
  function BeforeNul(b: seq<Byte>): seq<Byte> {
    if b == [] || b[0] == 0 then [] else [b[0]] + BeforeNul(b[1..])
  }

  function Chars(b: seq<Byte>): string {
    seq(|b|, i requires 0 <= i < |b| => b[i] as char)
  }

  /** An unsigned integer of k bytes at the aligned cursor: `data[index:]` only has to be long enough. */
  function ReadUnsigned(bigEndian: bool, k: nat, data: seq<Byte>, c: nat): (r: Result<(nat, nat)>)
    requires c < UINT16
    ensures r.Ok? ==> r.value.1 < UINT16
  {
    if c + k <= |data| then Ok((Unsigned(bigEndian, data[c..c + k]), (c + k) % UINT16)) else Err(Panic)
  }

  /** The k bytes `data[c : c+k]`, whose upper bound is itself a uint16. */
  function ReadBytes(k: nat, data: seq<Byte>, c: nat): (r: Result<(seq<Byte>, nat)>)
    requires c < UINT16
    ensures r.Ok? ==> |r.value.0| == k && r.value.1 < UINT16
  {
    if c + k < UINT16 && c + k <= |data| then Ok((data[c..c + k], c + k)) else Err(Panic)
  }

  function AsNum(r: Result<(nat, nat)>): Result<(Value, nat)> {
    match r
    case Ok((n, c)) => Ok((Num(n), c))
    case Err(f) => Err(f)
  }

  function AsStr(r: Result<(seq<Byte>, nat)>, text: seq<Byte> --> string): Result<(Value, nat)>
    requires r.Ok? ==> text.requires(r.value.0)
  {
    match r
    case Ok((b, c)) => Ok((Str(text(b)), c))
    case Err(f) => Err(f)
  }

  function CommText(b: seq<Byte>): string {
    Chars(BeforeNul(b))
  }

  /** The value printed for one field and the cursor after it; `ip6` stands for net.IP.String on sixteen bytes. */
  function ReadSlot(a: FieldAttrs, data: seq<Byte>, c: nat, ip6: seq<Byte> -> string): (r: Result<(Value, nat)>)
    requires c < UINT16
    ensures r.Ok? ==> r.value.1 < UINT16
  {
    match a.ctype
    case U8 => AsNum(ReadUnsigned(a.bigEndian, 1, data, c))
    case U16 => AsNum(ReadUnsigned(a.bigEndian, 2, data, Bump(c, 2)))
    case U32 =>
      if a.ip then AsStr(ReadBytes(4, data, Bump(c, 4)), DottedDecimal)
      else AsNum(ReadUnsigned(a.bigEndian, 4, data, Bump(c, 4)))
    case U64 => AsNum(ReadUnsigned(a.bigEndian, 8, data, Bump(c, 8)))
    case U128 => AsStr(ReadBytes(16, data, Bump(c, 16)), ip6)
    case Char => AsStr(ReadBytes(16, data, c), CommText)
  }

  /** The values read from field i on, the cursor being at c, after those already in `read`. */
  function DecodeFrom(model: Model, names: seq<string>, data: seq<Byte>, ip6: seq<Byte> -> string,
                      i: nat, c: nat, read: seq<Value>): (r: Result<seq<Value>>)
    requires i == |read| <= |names| && c < UINT16
    ensures r.Ok? ==> |r.value| == |names|
    decreases |names| - i
  {
    if i == |names| then Ok(read)
    else if names[i] !in model then Err(Fatal)
    else
      match ReadSlot(model[names[i]], data, c, ip6)
      case Err(f) => Err(f)
      case Ok((v, c')) => DecodeFrom(model, names, data, ip6, i + 1, c', read + [v])
  }

  /** What is kept of a character array: all up to the first NUL, byte by byte. */
  lemma {:induction false} CommTextIsPrefix(b: seq<Byte>)
    ensures var t := CommText(b);
            && |t| <= |b| && (|t| < |b| ==> b[|t|] == 0)
            && forall i :: 0 <= i < |t| ==> b[i] != 0 && t[i] == b[i] as char
  {
    if b != [] && b[0] != 0 {
      CommTextIsPrefix(b[1..]);
      var t, u := CommText(b), CommText(b[1..]);
      assert |t| == |u| + 1 && forall i :: 0 < i < |t| ==> t[i] == u[i - 1] && b[i] == b[1..][i - 1];
    }
  }

  method Trim(b: seq<Byte>) returns (r: seq<Byte>)
    ensures r == BeforeNul(b)
    ensures r <= b && 0 !in r && (|r| < |b| ==> b[|r|] == 0)
  {
    var i := 0;
    while i < |b|
      invariant 0 <= i <= |b|
      invariant BeforeNul(b) == b[..i] + BeforeNul(b[i..]) && 0 !in b[..i]
    {
      if b[i] == 0 {
        assert BeforeNul(b[i..]) == [];
        return b[..i];
      }
      assert b[i..][1..] == b[i + 1..];
      assert b[..i + 1] == b[..i] + [b[i]];
      i := i + 1;
    }
    return b;
  }

  method WriteQuoted(buf: Buffer, s: string)
    modifies buf
    ensures buf.unread == old(buf.unread) + ("\"" + s + "\"")
  {
    buf.Write("\"");
    buf.Write(s);
    buf.Write("\"");
  }

  class Decoder {
    var c: nat
    var v16: nat
    var v32: nat
    var v64: nat
    var ip: seq<Byte>
    const v4: bool
    const ip6: seq<Byte> -> string

    constructor (v4: bool, ip6: seq<Byte> -> string)
      ensures this.v4 == v4 && this.ip6 == ip6
    {
      this.v4, this.ip6 := v4, ip6;
      c, v16, v32, v64 := 0, 0, 0, 0;
      ip := seq(if v4 then 4 else 32, _ => 0);
    }

    function FieldModel(): Model {
      if v4 then FieldsModel4() else FieldsModel6()
    }

    method Align(k: nat)
      requires k > 0 && c < UINT16
      modifies this`c
      ensures c == Bump(old(c), k) < UINT16
    {
      if c % k > 0 {
        c := (c + (k - c % k)) % UINT16;
      }
    }

    /** bytesToUint16/32/64, strconv.FormatUint and the comma. */
    method PrintUnsigned(bigEndian: bool, k: nat, data: seq<Byte>, buf: Buffer) returns (n: nat, ok: bool)
      requires c < UINT16
      modifies this`c, buf
      ensures match ReadUnsigned(bigEndian, k, data, old(c))
              case Ok((m, c')) => ok && n == m && c == c' && buf.unread == old(buf.unread) + FormatUint(m) + ","
              case Err(_) => !ok
    {
      if c + k > |data| {
        return 0, false;
      }
      n := Unsigned(bigEndian, data[c..c + k]);
      buf.Write(FormatUint(n));
      buf.Write(",");
      c := (c + k) % UINT16;
      ok := true;
    }

    /** `data[d.c : d.c+k]`; the cursor moves past it. */
    method Slice(k: nat, data: seq<Byte>) returns (b: seq<Byte>, ok: bool)
      requires c < UINT16 && 0 < k <= 16
      modifies this`c
      ensures match ReadBytes(k, data, old(c))
              case Ok((bytes, c')) => ok && b == bytes && c == c'
              case Err(_) => !ok
    {
      var hi := (c + k) % UINT16;
      if hi < c || hi > |data| {
        return [], false;
      }
      b := data[c..hi];
      c := hi;
      ok := true;
    }

    /** Reads and prints one field; the cursor moves on. */
    method DecodeField(a: FieldAttrs, data: seq<Byte>, buf: Buffer) returns (ok: bool)
      requires c < UINT16
      modifies this, buf
      ensures match ReadSlot(a, data, old(c), ip6)
              case Ok((v, c')) => ok && c == c' && buf.unread == old(buf.unread) + (ValueText(v) + ",")
              case Err(_) => !ok
    {
      var b;
      match a.ctype
      case U8 =>
        var v8;
        v8, ok := PrintUnsigned(a.bigEndian, 1, data, buf);
      case U16 =>
        Align(2);
        v16, ok := PrintUnsigned(a.bigEndian, 2, data, buf);
      case U32 =>
        Align(4);
        if a.ip {
          b, ok := Slice(4, data);
          if ok {
            ip := b;
            WriteQuoted(buf, DottedDecimal(ip));
            buf.Write(",");
          }
        } else {
          v32, ok := PrintUnsigned(a.bigEndian, 4, data, buf);
        }
      case U64 =>
        Align(8);
        v64, ok := PrintUnsigned(a.bigEndian, 8, data, buf);
      case U128 =>
        Align(16);
        b, ok := Slice(16, data);
        if ok {
          ip := b;
          WriteQuoted(buf, ip6(ip));
          buf.Write(",");
        }
      case Char =>
        b, ok := Slice(16, data);
        if ok {
          var comm := Trim(b);
          WriteQuoted(buf, Chars(comm));
          buf.Write(",");
        }
    }

    method DecodeMember(name: string, a: FieldAttrs, data: seq<Byte>, buf: Buffer) returns (ok: bool)
      requires c < UINT16
      modifies this, buf
      ensures match ReadSlot(a, data, old(c), ip6)
              case Ok((v, c')) => ok && c == c' && buf.unread == old(buf.unread) + Member(name, v)
              case Err(_) => !ok
    {
      WriteQuoted(buf, name);
      buf.Write(":");
      ok := DecodeField(a, data, buf);
    }

    /** The loop over the requested fields. */
    method DecodeMembers(model: Model, names: seq<string>, data: seq<Byte>, buf: Buffer)
      returns (failed: Option<Failure>)
      modifies this, buf
      ensures match DecodeFrom(model, names, data, ip6, 0, 0, [])
              case Ok(values) => failed == None && buf.unread == old(buf.unread) + Members(names, values)
              case Err(f) => failed == Some(f)
    {
      ghost var values := [];
      ghost var printed := "";
      ghost var before := buf.unread;
      ghost var whole := DecodeFrom(model, names, data, ip6, 0, 0, []);
      c := 0;
      for i := 0 to |names|
        invariant c < UINT16 && |values| == i
        invariant DecodeFrom(model, names, data, ip6, i, c, values) == whole
        invariant printed == Members(names[..i], values)
        invariant buf.unread == before + printed
      {
        if names[i] !in model {
          return Some(Fatal);
        }
        ghost var r := ReadSlot(model[names[i]], data, c, ip6);
        var ok := DecodeMember(names[i], model[names[i]], data, buf);
        if !ok {
          return Some(Panic);
        }
        ghost var v := r.value.0;
        MembersSnoc(names[..i], values, names[i], v);
        TakeSnoc(names, i);
        ConcatAssoc(before, printed, Member(names[i], v));
        values := values + [v];
        printed := printed + Member(names[i], v);
      }
      TakeAll(names);
      return None;
    }

    /** Prints every field in order and then the time; `now` is time.Now().Unix(). */
    method Decode(data: seq<Byte>, names: seq<string>, buf: Buffer, now: int) returns (failed: Option<Failure>)
      modifies this, buf
      ensures match DecodeFrom(FieldModel(), names, data, ip6, 0, 0, [])
              case Ok(values) => failed == None && buf.unread == old(buf.unread) + RecordText(names, values, now)
              case Err(f) => failed == Some(f)
    {
      buf.Write("{");
      failed := DecodeMembers(FieldModel(), names, data, buf);
      if failed == None {
        ghost var values := DecodeFrom(FieldModel(), names, data, ip6, 0, 0, []).value;
        WriteQuoted(buf, "Timestamp");
        buf.Write(":");
        buf.Write(FormatInt(now));
        buf.Write("}");
        RecordIsWritten(old(buf.unread), Members(names, values), now);
      }
    }
  }
}
