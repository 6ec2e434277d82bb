/** The struct the kernel program fills (ebpf/template.go:46-54), laid out by natural alignment as section 3.1.2 of the
    System V AMD64 psABI has it, and the agreement of the agent's decoder with that layout. */
module Layout {
  import opened Text
  import opened Arith
  import opened Fields
  import opened Decoding

  // ---------------------------------------------------------------- where members lie

  function Size(a: FieldAttrs): nat {
    match a.ctype
    case U8 => 1
    case U16 => 2
    case U32 => 4
    case U64 => 8
    case U128 => 16
    case Char => 16  // TASK_COMM_LEN bytes
  }

  function Alignment(a: FieldAttrs): (k: nat)
    ensures k > 0
  {
    if a.ctype.Char? then 1 else Size(a)
  }

  function RoundUp(c: nat, k: nat): nat
    requires k > 0
  {
    if c % k == 0 then c else c + (k - c % k)
  }

  /** The end of member i - 1, before any padding. */
  function End(attrs: seq<FieldAttrs>, i: nat): nat
    requires i <= |attrs|
    decreases i, 0
  {
    if i == 0 then 0 else Offset(attrs, i - 1) + Size(attrs[i - 1])
  }

  function Offset(attrs: seq<FieldAttrs>, i: nat): nat
    requires i < |attrs|
    decreases i, 1
  {
    RoundUp(End(attrs, i), Alignment(attrs[i]))
  }

  /** RoundUp is what alignment asks for: the least multiple of k not below c. */
  lemma RoundUpIsLeast(c: nat, k: nat, m: nat)
    requires k > 0
    ensures c <= RoundUp(c, k) < c + k && RoundUp(c, k) % k == 0
    ensures c <= m && m % k == 0 ==> RoundUp(c, k) <= m
  {
    var q := c / k;
    assert c == k * q + c % k;
    if c % k > 0 {
      MultipleModulo(q + 1, k);
      assert RoundUp(c, k) == (q + 1) * k by {
        assert (q + 1) * k == k * q + k;
      }
      if c <= m && m % k == 0 && m < (q + 1) * k {
        assert m == k * (m / k);
        assert m / k <= q by {
          if m / k >= q + 1 {
            MultiplyMonotone(q + 1, m / k, k);
          }
        }
        MultiplyMonotone(m / k, q, k);
      }
    }
  }

  /** Where the ABI puts a member: at the first place after the previous one that its type allows. */
  lemma MemberPlaces(attrs: seq<FieldAttrs>, i: nat)
    requires i < |attrs|
    ensures var end, at := End(attrs, i), Offset(attrs, i);
            match attrs[i].ctype
            case U8 => at == end
            case U16 => end <= at < end + 2 && at % 2 == 0
            case U32 => end <= at < end + 4 && at % 4 == 0
            case U64 => end <= at < end + 8 && at % 8 == 0
            case U128 => end <= at < end + 16 && at % 16 == 0
            case Char => at == end
    ensures End(attrs, i + 1) == Offset(attrs, i)
          + match attrs[i].ctype case U8 => 1 case U16 => 2 case U32 => 4 case U64 => 8 case U128 => 16 case Char => 16
    ensures End(attrs, 0) == 0
  {
    RoundUpIsLeast(End(attrs, i), Alignment(attrs[i]), 0);
  }

  /** Members lie in order, without overlap. */
  lemma {:induction false} MembersAreDisjoint(attrs: seq<FieldAttrs>, i: nat, j: nat)
    requires i < j <= |attrs|
    ensures Offset(attrs, i) + Size(attrs[i]) <= End(attrs, j)
    ensures j < |attrs| ==> Offset(attrs, i) + Size(attrs[i]) <= Offset(attrs, j)
    decreases j - i
  {
    if i + 1 < j {
      MembersAreDisjoint(attrs, i, j - 1);
    }
    if j < |attrs| {
      RoundUpIsLeast(End(attrs, j), Alignment(attrs[j]), 0);
    }
  }

  /** Any list of up to 2047 fields ends within a uint16 cursor. */
  lemma {:induction false} ShortListsFit(attrs: seq<FieldAttrs>, i: nat)
    requires i <= |attrs|
    ensures End(attrs, i) <= 31 * i
    ensures |attrs| <= 2047 && i == |attrs| ==> End(attrs, i) < UINT16
  {
    if i > 0 {
      ShortListsFit(attrs, i - 1);
      RoundUpIsLeast(End(attrs, i - 1), Alignment(attrs[i - 1]), 0);
    }
  }

  // ---------------------------------------------------------------- what members hold

  /** What the program puts in a member: the value of a C expression, an address, or the sixteen bytes of a task's
      name. */
  datatype Slot = Int(n: nat) | Addr(addr: seq<Byte>) | Comm(comm: seq<Byte>)

  function Pow256(k: nat): nat {
    if k == 0 then 1 else 0x100 * Pow256(k - 1)
  }

  predicate Fits(a: FieldAttrs, s: Slot) {
    match a.ctype
    case Char => s.Comm? && |s.comm| == 16
    case U128 => s.Addr? && |s.addr| == 16
    case U32 => if a.ip then s.Addr? && |s.addr| == 4 else s.Int? && s.n < Pow256(4)
    case _ => s.Int? && s.n < Pow256(Size(a))
  }

  function LittleEndianBytes(n: nat, k: nat): (b: seq<Byte>)
    ensures |b| == k
  {
    if k == 0 then [] else [n % 0x100] + LittleEndianBytes(n / 0x100, k - 1)
  }

  /** The machine stores every number with its lowest byte first, whatever it stands for. */
  function SlotBytes(a: FieldAttrs, s: Slot): (b: seq<Byte>)
    requires Fits(a, s)
    ensures |b| == Size(a)
  {
    match s
    case Int(n) => LittleEndianBytes(n, Size(a))
    case Addr(addr) => addr
    case Comm(comm) => comm
  }

  /** The number that the agent makes of a stored n: the same, unless the table calls the field big-endian. */
  function AsRead(a: FieldAttrs, n: nat): nat {
    Unsigned(a.bigEndian, LittleEndianBytes(n, Size(a)))
  }

  /** What a record should show for a slot. */
  function Shown(a: FieldAttrs, s: Slot, ip6: seq<Byte> -> string): Value {
    match s
    case Int(n) => Num(AsRead(a, n))
    case Addr(addr) => Str(if |addr| == 4 then DottedDecimal(addr) else ip6(addr))
    case Comm(comm) => Str(CommText(comm))
  }

  predicate AllFit(attrs: seq<FieldAttrs>, slots: seq<Slot>) {
    |slots| == |attrs| && forall i :: 0 <= i < |attrs| ==> Fits(attrs[i], slots[i])
  }

  /** `data` is an image of the struct: padding, and whatever follows the last member, are arbitrary. */
  ghost predicate LaidOut(attrs: seq<FieldAttrs>, slots: seq<Slot>, data: seq<Byte>) {
    && AllFit(attrs, slots)
    && End(attrs, |attrs|) <= |data|
    && forall i :: 0 <= i < |attrs| ==>
         SlotBytes(attrs[i], slots[i]) == Bytes(data, Offset(attrs, i), Size(attrs[i]))
  }

  /** The k bytes at `at`, as far as there are any. */
  function Bytes(data: seq<Byte>, at: nat, k: nat): seq<Byte> {
    if at + k <= |data| then data[at..at + k] else []
  }

  lemma {:induction false} LittleEndianRoundTrip(n: nat, k: nat)
    requires n < Pow256(k)
    ensures LittleEndian(LittleEndianBytes(n, k)) == n
  {
    if k > 0 {
      LittleEndianRoundTrip(n / 0x100, k - 1);
    }
  }

  lemma TwoBytes(lo: Byte, hi: Byte)
    ensures BigEndian([lo, hi]) == 0x100 * lo + hi
  {
    var b: seq<Byte> := [lo, hi];
    assert b[..1] == [lo] && b[..1][..0] == [];
    assert BigEndian(b[..1]) == lo as nat;
  }

  /** A number comes out as it went in, except that the two bytes of a big-endian one are swapped; it is then the same
      exactly when they are equal. */
  lemma AsReadMeaning(a: FieldAttrs, n: nat)
    requires n < Pow256(Size(a)) && (a.bigEndian ==> a.ctype.U16?)
    ensures AsRead(a, n) == if a.bigEndian then n % 0x100 * 0x100 + n / 0x100 else n
    ensures a.bigEndian ==> (AsRead(a, n) == n <==> n / 0x100 == n % 0x100)
  {
    if a.bigEndian {
      var lo, hi := n % 0x100, n / 0x100;
      assert Pow256(1) == 0x100 && hi < 0x100;
      assert LittleEndianBytes(hi, 1) == [hi] + LittleEndianBytes(0, 0);
      assert LittleEndianBytes(n, 2) == [lo] + LittleEndianBytes(hi, 1) == [lo, hi];
      TwoBytes(lo, hi);
    } else {
      LittleEndianRoundTrip(n, Size(a));
    }
  }

  // ---------------------------------------------------------------- one member

  /** The value a member's bytes stand for. */
  function Meaning(a: FieldAttrs, b: seq<Byte>, ip6: seq<Byte> -> string): Value
    requires |b| == Size(a)
  {
    match a.ctype
    case Char => Str(CommText(b))
    case U128 => Str(ip6(b))
    case U32 => if a.ip then Str(DottedDecimal(b)) else Num(Unsigned(a.bigEndian, b))
    case _ => Num(Unsigned(a.bigEndian, b))
  }

  lemma MeaningOfSlot(a: FieldAttrs, s: Slot, ip6: seq<Byte> -> string)
    requires Fits(a, s)
    ensures Meaning(a, SlotBytes(a, s), ip6) == Shown(a, s, ip6)
  {
  }

  lemma BumpIsRoundUp(c: nat, k: nat)
    requires k in {1, 2, 4, 8, 16}
    requires RoundUp(c, k) < UINT16
    ensures Bump(c, k) == RoundUp(c, k)
  {
  }

  /** Reading one member at the running cursor is reading it where the layout puts it. */
  lemma ReadSlotFollowsLayout(a: FieldAttrs, data: seq<Byte>, c: nat, ip6: seq<Byte> -> string)
    requires RoundUp(c, Alignment(a)) + Size(a) < UINT16 && c < UINT16
    ensures var at := RoundUp(c, Alignment(a));
            ReadSlot(a, data, c, ip6) ==
              if at + Size(a) <= |data| then Ok((Meaning(a, data[at..at + Size(a)], ip6), at + Size(a))) else Err(Panic)
  {
    BumpIsRoundUp(c, Alignment(a));
  }

  // ---------------------------------------------------------------- the whole record

  function AttrsOf(model: Model, names: seq<string>): (attrs: seq<FieldAttrs>)
    requires forall i :: 0 <= i < |names| ==> names[i] in model
    ensures |attrs| == |names|
  {
    seq(|names|, i requires 0 <= i < |names| => model[names[i]])
  }

  predicate Known(model: Model, names: seq<string>) {
    forall i :: 0 <= i < |names| ==> names[i] in model
  }

  /** Value v is what member j of the struct in `data` stands for. */
  ghost predicate Holds(attrs: seq<FieldAttrs>, data: seq<Byte>, ip6: seq<Byte> -> string, j: nat, v: Value)
    requires j < |attrs|
  {
    var at := Offset(attrs, j);
    at + Size(attrs[j]) <= |data| && v == Meaning(attrs[j], data[at..at + Size(attrs[j])], ip6)
  }

  /** Each value is what its member stands for. */
  ghost predicate AllHold(attrs: seq<FieldAttrs>, data: seq<Byte>, ip6: seq<Byte> -> string, values: seq<Value>) {
    |values| <= |attrs| && forall j :: 0 <= j < |values| ==> Holds(attrs, data, ip6, j, values[j])
  }

  lemma DecodeStep(model: Model, names: seq<string>, data: seq<Byte>, ip6: seq<Byte> -> string,
                   attrs: seq<FieldAttrs>, i: nat, end: nat, read: seq<Value>)
    requires Known(model, names) && attrs == AttrsOf(model, names)
    requires i == |read| < |names| && end < UINT16
    requires RoundUp(end, Alignment(attrs[i])) + Size(attrs[i]) < UINT16
    ensures var at := RoundUp(end, Alignment(attrs[i]));
            var next := at + Size(attrs[i]);
            DecodeFrom(model, names, data, ip6, i, end, read) ==
              if next > |data| then Err(Panic)
              else DecodeFrom(model, names, data, ip6, i + 1, next, read + [Meaning(attrs[i], data[at..next], ip6)])
  {
    ReadSlotFollowsLayout(attrs[i], data, end, ip6);
  }

  lemma OneMoreHolds(attrs: seq<FieldAttrs>, data: seq<Byte>, ip6: seq<Byte> -> string, read: seq<Value>, v: Value)
    requires |read| < |attrs| && AllHold(attrs, data, ip6, read) && Holds(attrs, data, ip6, |read|, v)
    ensures AllHold(attrs, data, ip6, read + [v])
  {
  }

  lemma EndsGrow(attrs: seq<FieldAttrs>, i: nat)
    requires i < |attrs|
    ensures End(attrs, i) <= Offset(attrs, i)
    ensures End(attrs, i + 1) == Offset(attrs, i) + Size(attrs[i]) <= End(attrs, |attrs|)
  {
    RoundUpIsLeast(End(attrs, i), Alignment(attrs[i]), 0);
    if i + 1 < |attrs| {
      MembersAreDisjoint(attrs, i, |attrs|);
    }
  }

  /** The running cursor is the end of the previous member; decoding succeeds exactly when the data hold the last
      member, and every value is read at its offset. */
  lemma {:induction false} DecodeFollowsLayout(model: Model, names: seq<string>, data: seq<Byte>,
                                               ip6: seq<Byte> -> string, attrs: seq<FieldAttrs>, i: nat,
                                               read: seq<Value>)
    requires Known(model, names) && attrs == AttrsOf(model, names)
    requires i == |read| <= |names|
    requires End(attrs, i) <= End(attrs, |attrs|) < UINT16 && End(attrs, i) <= |data|
    requires AllHold(attrs, data, ip6, read)
    ensures match DecodeFrom(model, names, data, ip6, i, End(attrs, i), read)
            case Err(f) => f == Panic && |data| < End(attrs, |attrs|)
            case Ok(values) => End(attrs, |attrs|) <= |data| && AllHold(attrs, data, ip6, values)
    decreases |names| - i
  {
    if i < |names| {
      EndsGrow(attrs, i);
      DecodeStep(model, names, data, ip6, attrs, i, End(attrs, i), read);
      if End(attrs, i + 1) <= |data| {
        var v := Meaning(attrs[i], data[Offset(attrs, i)..End(attrs, i + 1)], ip6);
        OneMoreHolds(attrs, data, ip6, read, v);
        DecodeFollowsLayout(model, names, data, ip6, attrs, i + 1, read + [v]);
      }
    } else {
      assert DecodeFrom(model, names, data, ip6, i, End(attrs, i), read) == Ok(read);
    }
  }

  /** A list with a name that the table does not have is never decoded. */
  lemma {:induction false} UnknownIsNotDecoded(model: Model, names: seq<string>, data: seq<Byte>,
                                               ip6: seq<Byte> -> string, i: nat, c: nat, read: seq<Value>, j: nat)
    requires i == |read| <= j < |names| && c < UINT16 && names[j] !in model
    ensures DecodeFrom(model, names, data, ip6, i, c, read).Err?
    ensures j == i ==> DecodeFrom(model, names, data, ip6, i, c, read) == Err(Fatal)
    decreases |names| - i
  {
    if i < j && names[i] in model {
      var r := ReadSlot(model[names[i]], data, c, ip6);
      if r.Ok? {
        UnknownIsNotDecoded(model, names, data, ip6, i + 1, r.value.1, read + [r.value.0], j);
      }
    }
  }

  function ShownAll(attrs: seq<FieldAttrs>, slots: seq<Slot>, ip6: seq<Byte> -> string): (values: seq<Value>)
    requires |slots| == |attrs|
    ensures |values| == |slots|
  {
    seq(|slots|, i requires 0 <= i < |slots| => Shown(attrs[i], slots[i], ip6))
  }

  lemma HoldsWhatWasLaidOut(attrs: seq<FieldAttrs>, slots: seq<Slot>, data: seq<Byte>, ip6: seq<Byte> -> string,
                            j: nat, v: Value)
    requires LaidOut(attrs, slots, data) && j < |attrs|
    requires Holds(attrs, data, ip6, j, v)
    ensures v == Shown(attrs[j], slots[j], ip6)
  {
    MeaningOfSlot(attrs[j], slots[j], ip6);
  }

  /** Decoding any image of a struct shows exactly what the program put into it, numbers in the byte order of the
      table. */
  lemma DecodeInvertsLayout(model: Model, names: seq<string>, slots: seq<Slot>, data: seq<Byte>,
                            ip6: seq<Byte> -> string)
    requires Known(model, names)
    requires LaidOut(AttrsOf(model, names), slots, data)
    requires End(AttrsOf(model, names), |names|) < UINT16
    ensures DecodeFrom(model, names, data, ip6, 0, 0, []) == Ok(ShownAll(AttrsOf(model, names), slots, ip6))
  {
    var attrs := AttrsOf(model, names);
    var shown := ShownAll(attrs, slots, ip6);
    assert End(attrs, 0) == 0;
    DecodeFollowsLayout(model, names, data, ip6, attrs, 0, []);
    var r := DecodeFrom(model, names, data, ip6, 0, 0, []);
    assert r.Ok?;
    var values := r.value;
    forall j | 0 <= j < |attrs|
      ensures values[j] == shown[j]
    {
      HoldsWhatWasLaidOut(attrs, slots, data, ip6, j, values[j]);
    }
    assert values == shown;
  }

  // ---------------------------------------------------------------- images exist

  function Padding(k: nat, pad: Byte): (p: seq<Byte>)
    ensures |p| == k
  {
    seq(k, _ => pad)
  }

  /** The first n members one after another, `pad` filling the gaps. */
  function Image(attrs: seq<FieldAttrs>, parts: seq<seq<Byte>>, pad: Byte, n: nat): (data: seq<Byte>)
    requires n <= |attrs| && PartsFit(attrs, parts)
    ensures |data| == End(attrs, n)
  {
    if n == 0 then []
    else
      RoundUpIsLeast(End(attrs, n - 1), Alignment(attrs[n - 1]), 0);
      Image(attrs, parts, pad, n - 1) + (Padding(Offset(attrs, n - 1) - End(attrs, n - 1), pad) + parts[n - 1])
  }

  lemma SliceOfPrefix<T>(a: seq<T>, b: seq<T>, lo: nat, hi: nat)
    requires lo <= hi <= |a|
    ensures (a + b)[lo..hi] == a[lo..hi]
  {
  }

  lemma SliceOfLast<T>(a: seq<T>, b: seq<T>, c: seq<T>)
    ensures (a + (b + c))[|a| + |b|..|a| + |b| + |c|] == c
  {
  }

  ghost predicate PartsFit(attrs: seq<FieldAttrs>, parts: seq<seq<Byte>>) {
    |attrs| == |parts| && forall j :: 0 <= j < |attrs| ==> |parts[j]| == Size(attrs[j])
  }

  ghost predicate Part(data: seq<Byte>, lo: nat, hi: nat, part: seq<Byte>) {
    lo <= hi <= |data| && data[lo..hi] == part
  }

  lemma ImageLastPart(attrs: seq<FieldAttrs>, parts: seq<seq<Byte>>, pad: Byte, i: nat)
    requires i < |attrs| && PartsFit(attrs, parts)
    ensures Part(Image(attrs, parts, pad, i + 1), Offset(attrs, i), End(attrs, i + 1), parts[i])
  {
    EndsGrow(attrs, i);
    SliceOfLast(Image(attrs, parts, pad, i), Padding(Offset(attrs, i) - End(attrs, i), pad), parts[i]);
  }

  lemma ImageKeepsPart(attrs: seq<FieldAttrs>, parts: seq<seq<Byte>>, pad: Byte, n: nat, lo: nat, hi: nat,
                       part: seq<Byte>)
    requires n < |attrs| && PartsFit(attrs, parts)
    requires Part(Image(attrs, parts, pad, n), lo, hi, part)
    ensures Part(Image(attrs, parts, pad, n + 1), lo, hi, part)
  {
    EndsGrow(attrs, n);
    SliceOfPrefix(Image(attrs, parts, pad, n), Padding(Offset(attrs, n) - End(attrs, n), pad) + parts[n], lo, hi);
  }

  lemma {:induction false} ImageHasParts(attrs: seq<FieldAttrs>, parts: seq<seq<Byte>>, pad: Byte, n: nat, i: nat)
    requires i < n <= |attrs| && PartsFit(attrs, parts)
    ensures Part(Image(attrs, parts, pad, n), Offset(attrs, i), End(attrs, i + 1), parts[i])
  {
    if i + 1 == n {
      ImageLastPart(attrs, parts, pad, i);
    } else {
      ImageHasParts(attrs, parts, pad, n - 1, i);
      ImageKeepsPart(attrs, parts, pad, n - 1, Offset(attrs, i), End(attrs, i + 1), parts[i]);
    }
  }

  /** Every list of fitting slots has an image, for any padding. */
  lemma SlotsHaveImage(attrs: seq<FieldAttrs>, slots: seq<Slot>, pad: Byte) returns (data: seq<Byte>)
    requires AllFit(attrs, slots)
    ensures LaidOut(attrs, slots, data)
  {
    var parts := seq(|attrs|, i requires 0 <= i < |attrs| => SlotBytes(attrs[i], slots[i]));
    data := Image(attrs, parts, pad, |attrs|);
    forall i | 0 <= i < |attrs|
      ensures SlotBytes(attrs[i], slots[i]) == Bytes(data, Offset(attrs, i), Size(attrs[i]))
    {
      ImageHasParts(attrs, parts, pad, |attrs|, i);
    }
  }
}
