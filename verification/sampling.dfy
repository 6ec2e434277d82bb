/** Runs of a generated program over a trace of kernel events: which events are reported, and how often for one
    socket. */
module Sampling {
  import opened Text
  import opened Program
  import Counter

  const AF_INET := 2
  const AF_INET6 := 10

  // ---------------------------------------------------------------- one event

  datatype State = State(samples4: Samples, samples6: Samples) {
    function Of(v4: bool): Samples {
      if v4 then samples4 else samples6
    }

    function With(v4: bool, samples: Samples): State {
      if v4 then State(samples, samples6) else State(samples4, samples)
    }
  }

  /** The tracepoint's own conditions; the state filter exists only where the socket's state changes. */
  predicate Gate(tp: Tracepoint, e: Event) {
    tp.name == "sock__inet_sock_set_state" ==> e.isTCP && (tp.tcpState == "TCP_ALL" || e.newState == tp.tcpState)
  }

  function FieldsOf(tp: Tracepoint, v4: bool): seq<ReqField> {
    if v4 then tp.fields4 else tp.fields6
  }

  /** The block that an event runs, if any. */
  predicate Runs(tp: Tracepoint, v4: bool, e: Event) {
    Gate(tp, e) && FieldsOf(tp, v4) != [] && e.family == (if v4 then AF_INET else AF_INET6)
  }

  function OnEvent(tp: Tracepoint, st: State, e: Event): (State, Option<(bool, Record)>) {
    if Runs(tp, true, e) then RunBlock(tp, true, st, e)
    else if Runs(tp, false, e) then RunBlock(tp, false, st, e)
    else (st, None)
  }

  function RunBlock(tp: Tracepoint, v4: bool, st: State, e: Event): (State, Option<(bool, Record)>) {
    var (samples, rec) := Exec(Block(v4, FieldsOf(tp, v4), tp.sample), e, map[], st.Of(v4));
    (st.With(v4, samples), match rec case None => None case Some(r) => Some((v4, r)))
  }

  /** The program at work: its two hashes survive from event to event. */
  class Probe {
    const tp: Tracepoint
    var samples4: Samples
    var samples6: Samples

    constructor (tp: Tracepoint)
      ensures this.tp == tp && Contents() == State(map[], map[])
    {
      this.tp := tp;
      samples4, samples6 := map[], map[];
    }

    function Contents(): State
      reads this
    {
      State(samples4, samples6)
    }

    method Execute(v4: bool, e: Event) returns (submitted: Option<Record>)
      modifies this
      ensures var (samples, rec) := Exec(Block(v4, FieldsOf(tp, v4), tp.sample), e, map[], old(Contents()).Of(v4));
              Contents() == old(Contents()).With(v4, samples) && submitted == rec
    {
      var stmts := Block(v4, FieldsOf(tp, v4), tp.sample);
      var samples := if v4 then samples4 else samples6;
      var rec: Record := map[];
      ghost var whole := Exec(stmts, e, rec, samples);  // what is still to come, seen from the start
      submitted := None;
      while stmts != []
        invariant submitted == None && Exec(stmts, e, rec, samples) == whole
        decreases |stmts|
      {
        match stmts[0] {
        case ReturnIf(family, cond) =>
          if CondHolds(family, cond, e, rec) {
            break;
          }
        case Sample(limit) =>
          var (go, samples') := Counter.SampleStep(limit, samples, e.sock);
          samples := samples';
          if !go {
            break;
          }
        case Submit =>
          submitted := Some(rec);
          break;
        case _ =>
          rec := rec[stmts[0].member := Stored(stmts[0], e)];
        }
        stmts := stmts[1..];
      }
      if v4 {
        samples4 := samples;
      } else {
        samples6 := samples;
      }
    }

    /** The whole program for one event. Where the socket's state changes, other protocols and, unless all states are
        wanted, other states have no effect; elsewhere there is no such condition. Then family 2 runs the block for
        IPv4 and 10 that for IPv6, if there are fields for it. */
    method Handle(e: Event) returns (out: Option<(bool, Record)>)
      modifies this
      ensures var v4 := e.family == 2;
              if (tp.name == "sock__inet_sock_set_state" ==>
                    e.isTCP && (tp.tcpState == "TCP_ALL" || e.newState == tp.tcpState))
                 && ((e.family == 2 && tp.fields4 != []) || (e.family == 10 && tp.fields6 != []))
              then (Contents(), out) == RunBlock(tp, v4, old(Contents()), e)
              else out == None && Contents() == old(Contents())
      ensures (Contents(), out) == OnEvent(tp, old(Contents()), e)
    {
      if tp.name == "sock__inet_sock_set_state" {
        if !e.isTCP {
          return None;
        }
        if tp.tcpState != "TCP_ALL" {
          if e.newState != tp.tcpState {
            return None;
          }
        }
      }
      if tp.fields4 != [] {
        if e.family == AF_INET {
          var r := Execute(true, e);
          return match r case None => None case Some(rec) => Some((true, rec));
        }
      }
      if tp.fields6 != [] {
        if e.family == AF_INET6 {
          var r := Execute(false, e);
          return match r case None => None case Some(rec) => Some((false, rec));
        }
      }
      return None;
    }
  }

  // ---------------------------------------------------------------- what one event does

  /** A list that yields a program: members do not clash, and the brackets of its math match. */
  predicate Fit(v4: bool, fields: seq<ReqField>) {
    AllWellSourced(fields) && DistinctMembers(fields) && AllMathCloses(v4, fields)
  }

  predicate WellFormed(tp: Tracepoint) {
    Fit(true, tp.fields4) && Fit(false, tp.fields6)
  }

  function Wished(tp: Tracepoint, v4: bool, e: Event): Record {
    FullRecord(v4, FieldsOf(tp, v4), e, |FieldsOf(tp, v4)|)
  }

  /** Event e is to be reported for a family, sampling apart. */
  ghost predicate Offered(tp: Tracepoint, v4: bool, e: Event) {
    Runs(tp, v4, e) && !Filtered(v4, FieldsOf(tp, v4), e, Wished(tp, v4, e))
  }

  /** What a family's perf buffer receives. */
  function Seen(out: Option<(bool, Record)>, v4: bool): Option<Record> {
    match out
    case None => None
    case Some((family, rec)) => if family == v4 then Some(rec) else None
  }

  lemma FamilyIsFit(tp: Tracepoint, v4: bool)
    requires WellFormed(tp)
    ensures Fit(v4, FieldsOf(tp, v4))
  {
  }

  lemma RunBlockMeaning(tp: Tracepoint, v4: bool, st: State, e: Event)
    requires Fit(v4, FieldsOf(tp, v4))
    ensures var (st', out) := RunBlock(tp, v4, st, e);
            && st'.Of(!v4) == st.Of(!v4) && Seen(out, !v4) == None
            && (st'.Of(v4), Seen(out, v4))
               == if Filtered(v4, FieldsOf(tp, v4), e, Wished(tp, v4, e)) then (st.Of(v4), None)
                  else Sampled(tp.sample, e.sock, Wished(tp, v4, e), st.Of(v4))
  {
    BlockMeaning(v4, FieldsOf(tp, v4), tp.sample, e, st.Of(v4));
  }

  /** Seen from one family: nothing happens unless the event has that family, the family has fields, no filter holds
      and, where the socket's state changes, the protocol is TCP and the state the wanted one; then the sampling counter
      alone decides, and what is submitted is the full record. */
  lemma OnEventMeaning(tp: Tracepoint, v4: bool, st: State, e: Event)
    requires WellFormed(tp)
    ensures var (st', out) := OnEvent(tp, st, e);
            (st'.Of(v4), Seen(out, v4))
            == if (tp.name == "sock__inet_sock_set_state" ==>
                     e.isTCP && (tp.tcpState == "TCP_ALL" || e.newState == tp.tcpState))
                  && e.family == (if v4 then 2 else 10) && FieldsOf(tp, v4) != []
                  && !Filtered(v4, FieldsOf(tp, v4), e, Wished(tp, v4, e))
               then Sampled(tp.sample, e.sock, Wished(tp, v4, e), st.Of(v4))
               else (st.Of(v4), None)
  {
    var family := e.family == AF_INET;
    FamilyIsFit(tp, family);
    RunBlockMeaning(tp, family, st, e);
  }

  /** What is offered, in terms of the event. */
  lemma OfferedExactly(tp: Tracepoint, v4: bool, e: Event)
    ensures Offered(tp, v4, e)
       <==> (tp.name == "sock__inet_sock_set_state" ==>
               e.isTCP && (tp.tcpState == "TCP_ALL" || e.newState == tp.tcpState))
            && e.family == (if v4 then 2 else 10) && FieldsOf(tp, v4) != []
            && !Filtered(v4, FieldsOf(tp, v4), e, Wished(tp, v4, e))
  {
  }

  // ---------------------------------------------------------------- runs

  function StateAfter(tp: Tracepoint, events: seq<Event>, n: nat): State
    requires n <= |events|
  {
    if n == 0 then State(map[], map[]) else OnEvent(tp, StateAfter(tp, events, n - 1), events[n - 1]).0
  }

  /** What event n submits to a family's perf buffer. */
  function Submission(tp: Tracepoint, v4: bool, events: seq<Event>, n: nat): Option<Record>
    requires n < |events|
  {
    Seen(OnEvent(tp, StateAfter(tp, events, n), events[n]).1, v4)
  }

  ghost function CountOffered(tp: Tracepoint, v4: bool, events: seq<Event>, sock: nat, n: nat): nat
    requires n <= |events|
  {
    if n == 0 then 0
    else
      CountOffered(tp, v4, events, sock, n - 1)
      + (if events[n - 1].sock == sock && Offered(tp, v4, events[n - 1]) then 1 else 0)
  }

  function CountSubmitted(tp: Tracepoint, v4: bool, events: seq<Event>, sock: nat, n: nat): nat
    requires n <= |events|
  {
    if n == 0 then 0
    else
      CountSubmitted(tp, v4, events, sock, n - 1)
      + (if events[n - 1].sock == sock && Submission(tp, v4, events, n - 1).Some? then 1 else 0)
  }

  /** Event n is offered, but the hash is full and does not track its socket. */
  ghost predicate Refused(tp: Tracepoint, v4: bool, events: seq<Event>, n: nat)
    requires n < |events|
  {
    Offered(tp, v4, events[n]) && Counter.Refuses(tp.sample, StateAfter(tp, events, n).Of(v4), events[n].sock)
  }

  ghost function CountRefused(tp: Tracepoint, v4: bool, events: seq<Event>, sock: nat, n: nat): nat
    requires n <= |events|
  {
    if n == 0 then 0
    else
      CountRefused(tp, v4, events, sock, n - 1)
      + (if events[n - 1].sock == sock && Refused(tp, v4, events, n - 1) then 1 else 0)
  }

  /** The sockets of the offered events, in order. */
  ghost function OfferedSocks(tp: Tracepoint, v4: bool, events: seq<Event>, n: nat): seq<nat>
    requires n <= |events|
  {
    if n == 0 then []
    else
      OfferedSocks(tp, v4, events, n - 1) + (if Offered(tp, v4, events[n - 1]) then [events[n - 1].sock] else [])
  }

  lemma {:induction false} OfferedSocksPrefix(tp: Tracepoint, v4: bool, events: seq<Event>, n: nat, m: nat)
    requires n <= m <= |events|
    ensures OfferedSocks(tp, v4, events, n) <= OfferedSocks(tp, v4, events, m)
  {
    if n < m {
      OfferedSocksPrefix(tp, v4, events, n, m - 1);
    }
  }

  lemma StateStep(tp: Tracepoint, v4: bool, events: seq<Event>, n: nat)
    requires WellFormed(tp) && n < |events|
    ensures var e := events[n];
            var before, after := StateAfter(tp, events, n).Of(v4), StateAfter(tp, events, n + 1).Of(v4);
            var sent := Submission(tp, v4, events, n).Some?;
            if Offered(tp, v4, e) then (sent, after) == Counter.Step(tp.sample, before, e.sock)
            else after == before && !sent
  {
    OfferedExactly(tp, v4, events[n]);
    OnEventMeaning(tp, v4, StateAfter(tp, events, n), events[n]);
  }

  lemma OfferedSocksStep(tp: Tracepoint, v4: bool, events: seq<Event>, n: nat)
    requires n < |events|
    ensures var socks := OfferedSocks(tp, v4, events, |events|);
            var k, k' := |OfferedSocks(tp, v4, events, n)|, |OfferedSocks(tp, v4, events, n + 1)|;
            if Offered(tp, v4, events[n]) then k' == k + 1 && k < |socks| && socks[k] == events[n].sock
            else k' == k && k <= |socks|
  {
    OfferedSocksPrefix(tp, v4, events, n, |events|);
    OfferedSocksPrefix(tp, v4, events, n + 1, |events|);
    var next := OfferedSocks(tp, v4, events, n + 1);
    if Offered(tp, v4, events[n]) {
      assert next[|next| - 1] == events[n].sock;
    }
  }

  /** The program is its sampling counter, fed the sockets of the offered events: the hash is the counter's, each
      submission is a passage, each offer an occurrence. */
  ghost predicate IsCounter(tp: Tracepoint, v4: bool, events: seq<Event>, sock: nat, n: nat)
    requires n <= |events|
  {
    var socks := OfferedSocks(tp, v4, events, |events|);
    var k := |OfferedSocks(tp, v4, events, n)|;
    && k <= |socks|
    && StateAfter(tp, events, n).Of(v4) == Counter.After(tp.sample, socks, k)
    && CountSubmitted(tp, v4, events, sock, n) == Counter.CountPassed(tp.sample, socks, sock, k)
    && CountOffered(tp, v4, events, sock, n) == Counter.CountOf(socks, sock, k)
    && CountRefused(tp, v4, events, sock, n) == Counter.CountRefused(tp.sample, socks, sock, k)
  }

  lemma CountsStep(tp: Tracepoint, v4: bool, events: seq<Event>, sock: nat, n: nat)
    requires n < |events|
    ensures CountSubmitted(tp, v4, events, sock, n + 1) == CountSubmitted(tp, v4, events, sock, n)
          + (if events[n].sock == sock && Submission(tp, v4, events, n).Some? then 1 else 0)
    ensures CountOffered(tp, v4, events, sock, n + 1) == CountOffered(tp, v4, events, sock, n)
          + (if events[n].sock == sock && Offered(tp, v4, events[n]) then 1 else 0)
    ensures CountRefused(tp, v4, events, sock, n + 1) == CountRefused(tp, v4, events, sock, n)
          + (if events[n].sock == sock && Refused(tp, v4, events, n) then 1 else 0)
  {
  }

  lemma IsCounterStep(tp: Tracepoint, v4: bool, events: seq<Event>, sock: nat, n: nat)
    requires WellFormed(tp) && n < |events| && IsCounter(tp, v4, events, sock, n)
    ensures IsCounter(tp, v4, events, sock, n + 1)
  {
    var socks := OfferedSocks(tp, v4, events, |events|);
    var k := |OfferedSocks(tp, v4, events, n)|;
    StateStep(tp, v4, events, n);
    OfferedSocksStep(tp, v4, events, n);
    CountsStep(tp, v4, events, sock, n);
    Counter.Advance(tp.sample, socks, sock, k, Offered(tp, v4, events[n]), events[n].sock,
                    StateAfter(tp, events, n).Of(v4), StateAfter(tp, events, n + 1).Of(v4),
                    Submission(tp, v4, events, n).Some?);
    var k' := |OfferedSocks(tp, v4, events, n + 1)|;
    assert k' == if Offered(tp, v4, events[n]) then k + 1 else k;
    assert StateAfter(tp, events, n + 1).Of(v4) == Counter.After(tp.sample, socks, k');
    assert CountOffered(tp, v4, events, sock, n + 1) == Counter.CountOf(socks, sock, k');
    assert CountSubmitted(tp, v4, events, sock, n + 1) == Counter.CountPassed(tp.sample, socks, sock, k');
    assert CountRefused(tp, v4, events, sock, n + 1) == Counter.CountRefused(tp.sample, socks, sock, k');
  }

  lemma {:induction false} ProgramIsCounter(tp: Tracepoint, v4: bool, events: seq<Event>, sock: nat, n: nat)
    requires WellFormed(tp) && n <= |events|
    ensures IsCounter(tp, v4, events, sock, n)
  {
    if n > 0 {
      var k := n - 1;
      ProgramIsCounter(tp, v4, events, sock, k);
      IsCounterStep(tp, v4, events, sock, k);
    }
  }

  /** Event n is submitted exactly when it has the family, passes the conditions on protocol and state and all filters,
      and the counter lets its socket through; the record is the full one. */
  lemma SubmissionMeaning(tp: Tracepoint, v4: bool, events: seq<Event>, n: nat)
    requires WellFormed(tp) && n < |events|
    ensures var e, samples := events[n], StateAfter(tp, events, n).Of(v4);
            Submission(tp, v4, events, n)
            == if (tp.name == "sock__inet_sock_set_state" ==>
                     e.isTCP && (tp.tcpState == "TCP_ALL" || e.newState == tp.tcpState))
                  && e.family == (if v4 then 2 else 10) && FieldsOf(tp, v4) != []
                  && !Filtered(v4, FieldsOf(tp, v4), e, Wished(tp, v4, e))
                  && Counter.Step(tp.sample, samples, e.sock).0
               then Some(Wished(tp, v4, e)) else None
  {
    OnEventMeaning(tp, v4, StateAfter(tp, events, n), events[n]);
  }

  ghost function OfferedSet(tp: Tracepoint, v4: bool, events: seq<Event>): set<nat> {
    set s | s in OfferedSocks(tp, v4, events, |events|)
  }

  lemma OfferedSetIsBelow(tp: Tracepoint, v4: bool, events: seq<Event>)
    ensures var socks := OfferedSocks(tp, v4, events, |events|);
            Counter.SocksBelow(socks, |socks|) == OfferedSet(tp, v4, events)
  {
  }

  /** The counts of a run are the counter's. */
  lemma CountsOfRun(tp: Tracepoint, v4: bool, events: seq<Event>, sock: nat)
    returns (offered: nat, refused: nat, submitted: nat, socks: nat)
    requires WellFormed(tp)
    ensures offered == CountOffered(tp, v4, events, sock, |events|)
    ensures refused == CountRefused(tp, v4, events, sock, |events|)
    ensures submitted == CountSubmitted(tp, v4, events, sock, |events|)
    ensures socks == |OfferedSet(tp, v4, events)|
    ensures refused <= offered && submitted == Counter.Share(tp.sample, offered - refused)
    ensures socks <= Counter.CAPACITY ==> refused == 0
  {
    var all := OfferedSocks(tp, v4, events, |events|);
    OfferedSetIsBelow(tp, v4, events);
    socks := |OfferedSet(tp, v4, events)|;
    offered, refused, submitted := Counter.RateByShare(tp.sample, all, sock);
    CountsAreCounters(tp, v4, events, sock, all);
  }

  lemma CountsAreCounters(tp: Tracepoint, v4: bool, events: seq<Event>, sock: nat, all: seq<nat>)
    requires WellFormed(tp) && all == OfferedSocks(tp, v4, events, |events|)
    ensures Counter.CountOf(all, sock, |all|) == CountOffered(tp, v4, events, sock, |events|)
    ensures Counter.CountRefused(tp.sample, all, sock, |all|) == CountRefused(tp, v4, events, sock, |events|)
    ensures Counter.CountPassed(tp.sample, all, sock, |all|) == CountSubmitted(tp, v4, events, sock, |events|)
  {
    ProgramIsCounter(tp, v4, events, sock, |events|);
  }

  /** In every run, the events of a socket that are submitted number exactly floor(k / (Sample + 1)), k being those
      offered and not refused by a full hash, however the sockets interleave. None is refused if at most 100000
      sockets are offered. */
  lemma SamplingRate(tp: Tracepoint, v4: bool, events: seq<Event>, sock: nat)
    requires WellFormed(tp)
    ensures var offered := CountOffered(tp, v4, events, sock, |events|);
            var refused := CountRefused(tp, v4, events, sock, |events|);
            && refused <= offered
            && CountSubmitted(tp, v4, events, sock, |events|) == (offered - refused) / (tp.sample + 1)
            && (|OfferedSet(tp, v4, events)| <= 100000 ==> refused == 0)
  {
    var offered, refused, submitted, socks := CountsOfRun(tp, v4, events, sock);
    Counter.ShareIsFloor(tp.sample, offered, refused, submitted);
  }

  /** After any run the hash is within its capacity and holds only counts between 1 and Sample, of sockets that were
      offered. */
  lemma HashStaysTidy(tp: Tracepoint, v4: bool, events: seq<Event>)
    requires WellFormed(tp)
    ensures var samples := StateAfter(tp, events, |events|).Of(v4);
            && |samples| <= 100000 && samples.Keys <= OfferedSet(tp, v4, events)
            && forall k :: k in samples ==> 1 <= samples[k] <= tp.sample
  {
    var socks := OfferedSocks(tp, v4, events, |events|);
    ProgramIsCounter(tp, v4, events, 0, |events|);
    OfferedSetIsBelow(tp, v4, events);
    Counter.HashIsTidy(tp.sample, socks, |socks|);
  }
}
