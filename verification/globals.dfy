/** The global names that the generated code declares for a list of tracepoints (ebpf/cgen.go: GetBPFCode,
    ebpf/template.go): all tracepoints go into one C program. */
module Globals {
  import opened Text
  import opened Program
  import opened Sampling

  datatype Global =
    | SampleHash(v4: bool)                  // BPF_HASH, the only one without the tracepoint's number
    | DataStruct(v4: bool, suffix: nat)
    | PerfOutput(v4: bool, suffix: nat)
    | TraceFunction(suffix: nat)

  function Family(v4: bool): string {
    if v4 then "ipv4_" else "ipv6_"
  }

  /** The name in the C text. */
  function NameOf(g: Global): string {
    match g
    case SampleHash(v4) => Family(v4) + "sample"
    case DataStruct(v4, suffix) => Family(v4) + "data" + FormatUint(suffix) + "_t"
    case PerfOutput(v4, suffix) => Family(v4) + "events" + FormatUint(suffix)
    case TraceFunction(suffix) => "sk_trace" + FormatUint(suffix)
  }

  /** What the template declares for the fields of one family. */
  function FamilyGlobals(tp: Tracepoint, v4: bool, suffix: nat): seq<Global> {
    if FieldsOf(tp, v4) == [] then []
    else (if tp.sample != 0 then [SampleHash(v4)] else []) + [DataStruct(v4, suffix), PerfOutput(v4, suffix)]
  }

  function TracepointGlobals(tp: Tracepoint, suffix: nat): seq<Global> {
    FamilyGlobals(tp, true, suffix) + (FamilyGlobals(tp, false, suffix) + [TraceFunction(suffix)])
  }

  /** Everything declared for the first n tracepoints. */
  function AllGlobals(tps: seq<Tracepoint>, n: nat): seq<Global>
    requires n <= |tps|
  {
    if n == 0 then [] else AllGlobals(tps, n - 1) + TracepointGlobals(tps[n - 1], n - 1)
  }

  function Spellings(gs: seq<Global>): (names: seq<string>)
    ensures |names| == |gs|
  {
    seq(|gs|, i requires 0 <= i < |gs| => NameOf(gs[i]))
  }

  lemma SpellingsConcat(a: seq<Global>, b: seq<Global>)
    ensures Spellings(a + b) == Spellings(a) + Spellings(b)
  {
  }

  /** The names that the whole program declares. */
  function DeclaredNames(tps: seq<Tracepoint>): seq<string> {
    Spellings(AllGlobals(tps, |tps|))
  }

  /** The loop of GetBPFCode, each tracepoint numbered by its place in the configuration. */
  method GetBPFCode(tps: seq<Tracepoint>) returns (declared: seq<string>)
    ensures declared == DeclaredNames(tps)
  {
    declared := [];
    for index := 0 to |tps|
      invariant declared == Spellings(AllGlobals(tps, index))
    {
      SpellingsConcat(AllGlobals(tps, index), TracepointGlobals(tps[index], index));
      declared := declared + Spellings(TracepointGlobals(tps[index], index));
    }
  }

  // ---------------------------------------------------------------- when no name is declared twice

  predicate NoRepeats<T(==)>(s: seq<T>) {
    forall i, j :: 0 <= i < j < |s| ==> s[i] != s[j]
  }

  predicate IsSampled(tp: Tracepoint, v4: bool) {
    FieldsOf(tp, v4) != [] && tp.sample != 0
  }

  predicate AtMostOneSampled(tps: seq<Tracepoint>, v4: bool) {
    forall i, j :: 0 <= i < j < |tps| ==> !(IsSampled(tps[i], v4) && IsSampled(tps[j], v4))
  }

  /** The character that tells the kinds of names apart, and the family's. */
  lemma KindOfName(g: Global)
    ensures var s := NameOf(g);
            if g.TraceFunction? then |s| >= 8 && s[0] == 's' && s[8..] == FormatUint(g.suffix)
            else
              && |s| >= 9 && s[0] == 'i' && s[3] == (if g.v4 then '4' else '6')
              && s[5] == (if g.SampleHash? then 's' else if g.DataStruct? then 'd' else 'e')
              && (g.DataStruct? ==> s[9..] == FormatUint(g.suffix) + "_t")
              && (g.PerfOutput? ==> |s| >= 11 && s[11..] == FormatUint(g.suffix))
  {
  }

  lemma SuffixesDiffer(i: nat, j: nat)
    ensures FormatUint(i) == FormatUint(j) ==> i == j
    ensures FormatUint(i) + "_t" == FormatUint(j) + "_t" ==> i == j
  {
    FormatUintIsDigits(i);
    FormatUintIsDigits(j);
    var a, b := FormatUint(i) + "_t", FormatUint(j) + "_t";
    assert a[..|a| - 2] == FormatUint(i) && b[..|b| - 2] == FormatUint(j);
  }

  lemma NamesTellGlobalsApart(a: Global, b: Global)
    ensures NameOf(a) == NameOf(b) <==> a == b
  {
    KindOfName(a);
    KindOfName(b);
    if !a.SampleHash? && !b.SampleHash? {
      SuffixesDiffer(a.suffix, b.suffix);
    }
  }

  lemma InTracepoint(tp: Tracepoint, k: nat, g: Global)
    ensures g in TracepointGlobals(tp, k)
       <==> match g
            case SampleHash(v4) => IsSampled(tp, v4)
            case DataStruct(v4, suffix) => FieldsOf(tp, v4) != [] && suffix == k
            case PerfOutput(v4, suffix) => FieldsOf(tp, v4) != [] && suffix == k
            case TraceFunction(suffix) => suffix == k
  {
    assert g in TracepointGlobals(tp, k)
      <==> g in FamilyGlobals(tp, true, k) || g in FamilyGlobals(tp, false, k) || g == TraceFunction(k);
  }

  /** The tracepoint's template declares the name. */
  predicate Declares(tps: seq<Tracepoint>, k: nat, g: Global)
    requires k < |tps|
  {
    g in TracepointGlobals(tps[k], k)
  }

  predicate DeclaredBelow(tps: seq<Tracepoint>, n: nat, g: Global)
    requires n <= |tps|
  {
    exists k :: 0 <= k < n && Declares(tps, k, g)
  }

  lemma OneMoreTemplate(tps: seq<Tracepoint>, n: nat, g: Global)
    requires n < |tps|
    ensures DeclaredBelow(tps, n + 1, g) <==> DeclaredBelow(tps, n, g) || Declares(tps, n, g)
  {
  }

  lemma OneTemplate(tps: seq<Tracepoint>, k: nat, g: Global)
    requires k < |tps|
    ensures g in AllGlobals(tps, k + 1) <==> g in AllGlobals(tps, k) || Declares(tps, k, g)
  {
  }

  lemma {:induction false} InAll(tps: seq<Tracepoint>, n: nat, g: Global)
    requires n <= |tps|
    ensures g in AllGlobals(tps, n) <==> DeclaredBelow(tps, n, g)
  {
    if n > 0 {
      var k := n - 1;
      InAll(tps, k, g);
      OneTemplate(tps, k, g);
      OneMoreTemplate(tps, k, g);
    }
  }

  lemma ConcatRepeats<T>(a: seq<T>, b: seq<T>)
    ensures NoRepeats(a + b) <==> NoRepeats(a) && NoRepeats(b) && forall x :: x in a ==> x !in b
  {
    var s := a + b;
    assert forall i :: 0 <= i < |a| ==> s[i] == a[i];
    assert forall j :: 0 <= j < |b| ==> s[|a| + j] == b[j];
    if NoRepeats(a) && NoRepeats(b) && forall x :: x in a ==> x !in b {
      forall i, j | 0 <= i < j < |s|
        ensures s[i] != s[j]
      {
        if j < |a| {
          assert a[i] != a[j];
        } else if i >= |a| {
          assert b[i - |a|] != b[j - |a|];
        } else {
          assert a[i] in a && b[j - |a|] in b;
        }
      }
    }
  }

  lemma FamilyHasNoRepeats(tp: Tracepoint, v4: bool, k: nat)
    ensures NoRepeats(FamilyGlobals(tp, v4, k))
    ensures forall g :: g in FamilyGlobals(tp, v4, k) ==> !g.TraceFunction? && g.v4 == v4
  {
  }

  lemma TracepointHasNoRepeats(tp: Tracepoint, k: nat)
    ensures NoRepeats(TracepointGlobals(tp, k))
  {
    FamilyHasNoRepeats(tp, true, k);
    FamilyHasNoRepeats(tp, false, k);
    ConcatRepeats(FamilyGlobals(tp, false, k), [TraceFunction(k)]);
    ConcatRepeats(FamilyGlobals(tp, true, k), FamilyGlobals(tp, false, k) + [TraceFunction(k)]);
  }

  /** Only a hash can have been declared before. */
  lemma SharedWithEarlier(tps: seq<Tracepoint>, n: nat, g: Global)
    requires n < |tps| && g in TracepointGlobals(tps[n], n)
    ensures g in AllGlobals(tps, n) <==> g.SampleHash? && exists k :: 0 <= k < n && IsSampled(tps[k], g.v4)
  {
    InAll(tps, n, g);
    InTracepoint(tps[n], n, g);
    forall k | 0 <= k < n
      ensures Declares(tps, k, g) <==> g.SampleHash? && IsSampled(tps[k], g.v4)
    {
      InTracepoint(tps[k], k, g);
    }
  }

  lemma OneMoreSampled(tps: seq<Tracepoint>, n: nat, v4: bool)
    requires n < |tps|
    ensures AtMostOneSampled(tps[..n + 1], v4)
       <==> AtMostOneSampled(tps[..n], v4) && !SampledBefore(tps, n, v4)
  {
    var all, before := tps[..n + 1], tps[..n];
    assert all[n] == tps[n] && forall k :: 0 <= k < n ==> all[k] == before[k] == tps[k];
  }

  lemma NothingShared(tps: seq<Tracepoint>, n: nat)
    requires n < |tps|
    ensures (forall g :: g in AllGlobals(tps, n) ==> g !in TracepointGlobals(tps[n], n))
       <==> !SampledBefore(tps, n, true) && !SampledBefore(tps, n, false)
  {
    forall g | g in TracepointGlobals(tps[n], n)
      ensures g in AllGlobals(tps, n) <==> g.SampleHash? && SampledBefore(tps, n, g.v4)
    {
      SharedWithEarlier(tps, n, g);
      InTracepoint(tps[n], n, g);
    }
    InTracepoint(tps[n], n, SampleHash(true));
    InTracepoint(tps[n], n, SampleHash(false));
  }

  /** Tracepoint n is sampled in a family, and so is an earlier one. */
  predicate SampledBefore(tps: seq<Tracepoint>, n: nat, v4: bool)
    requires n < |tps|
  {
    IsSampled(tps[n], v4) && exists k :: 0 <= k < n && IsSampled(tps[k], v4)
  }

  lemma {:induction false} GlobalsClash(tps: seq<Tracepoint>, n: nat)
    requires n <= |tps|
    ensures NoRepeats(AllGlobals(tps, n)) <==> AtMostOneSampled(tps[..n], true) && AtMostOneSampled(tps[..n], false)
  {
    if n > 0 {
      var k := n - 1;
      GlobalsClash(tps, k);
      TracepointHasNoRepeats(tps[k], k);
      ConcatRepeats(AllGlobals(tps, k), TracepointGlobals(tps[k], k));
      NothingShared(tps, k);
      OneMoreSampled(tps, k, true);
      OneMoreSampled(tps, k, false);
    }
  }

  /** The program for all tracepoints declares no name twice if and only if, in each family, at most one tracepoint that
      asks for fields is sampled. */
  lemma NamesClash(tps: seq<Tracepoint>)
    ensures NoRepeats(DeclaredNames(tps))
       <==> AtMostOneSampled(tps, true) && AtMostOneSampled(tps, false)
  {
    var gs := AllGlobals(tps, |tps|);
    GlobalsClash(tps, |tps|);
    assert tps[..|tps|] == tps;
    forall i, j | 0 <= i < j < |gs|
      ensures Spellings(gs)[i] == Spellings(gs)[j] <==> gs[i] == gs[j]
    {
      NamesTellGlobalsApart(gs[i], gs[j]);
    }
  }

  // ---------------------------------------------------------------- which names those are

  /** The names that the template for the k-th tracepoint declares. */
  predicate DeclaredBy(tp: Tracepoint, k: nat, name: string) {
    var i := FormatUint(k);
    || name == "sk_trace" + i
    || (tp.fields4 != [] && (name == "ipv4_data" + i + "_t" || name == "ipv4_events" + i))
    || (tp.fields6 != [] && (name == "ipv6_data" + i + "_t" || name == "ipv6_events" + i))
    || (tp.sample != 0 && tp.fields4 != [] && name == "ipv4_sample")
    || (tp.sample != 0 && tp.fields6 != [] && name == "ipv6_sample")
  }

  lemma SpelledOut(v4: bool)
    ensures Family(v4) + "data" == (if v4 then "ipv4_data" else "ipv6_data")
    ensures Family(v4) + "events" == (if v4 then "ipv4_events" else "ipv6_events")
    ensures Family(v4) + "sample" == (if v4 then "ipv4_sample" else "ipv6_sample")
  {
  }

  lemma NameIsDeclaredBy(tp: Tracepoint, k: nat, g: Global)
    requires g in TracepointGlobals(tp, k)
    ensures DeclaredBy(tp, k, NameOf(g))
  {
    InTracepoint(tp, k, g);
    SpelledOut(true);
    SpelledOut(false);
  }

  /** Of a name that the template declares, the thing it names. */
  lemma DeclaredThing(tp: Tracepoint, k: nat, name: string) returns (g: Global)
    requires DeclaredBy(tp, k, name)
    ensures g in TracepointGlobals(tp, k) && NameOf(g) == name
  {
    var i := FormatUint(k);
    SpelledOut(true);
    SpelledOut(false);
    g := if name == "sk_trace" + i then TraceFunction(k)
         else if tp.fields4 != [] && name == "ipv4_data" + i + "_t" then DataStruct(true, k)
         else if tp.fields4 != [] && name == "ipv4_events" + i then PerfOutput(true, k)
         else if tp.fields6 != [] && name == "ipv6_data" + i + "_t" then DataStruct(false, k)
         else if tp.fields6 != [] && name == "ipv6_events" + i then PerfOutput(false, k)
         else if tp.fields4 != [] && name == "ipv4_sample" then SampleHash(true) else SampleHash(false);
    InTracepoint(tp, k, g);
  }

  /** The program declares, for every tracepoint, its function; for each family that has fields, a struct and a perf
      output under the tracepoint's number; the family's hash if a tracepoint with fields is sampled; and nothing
      else. */
  lemma DeclaredExactly(tps: seq<Tracepoint>, name: string)
    ensures name in DeclaredNames(tps) <==> exists k :: 0 <= k < |tps| && DeclaredBy(tps[k], k, name)
  {
    var gs := AllGlobals(tps, |tps|);
    if name in DeclaredNames(tps) {
      var i :| 0 <= i < |gs| && Spellings(gs)[i] == name;
      InAll(tps, |tps|, gs[i]);
      var k :| 0 <= k < |tps| && Declares(tps, k, gs[i]);
      NameIsDeclaredBy(tps[k], k, gs[i]);
    }
    forall k | 0 <= k < |tps| && DeclaredBy(tps[k], k, name)
      ensures name in DeclaredNames(tps)
    {
      var g := DeclaredThing(tps[k], k, name);
      assert Declares(tps, k, g);
      InAll(tps, |tps|, g);
      var i :| 0 <= i < |gs| && gs[i] == g;
      assert Spellings(gs)[i] == name;
    }
  }
}
