/** The sending loop of the gRPC egress (egress/grpc/grpc.go): it connects, sends records until a send fails, and
    reconnects, until the context is done. What the network and the channel do is a script. */
module Grpc {
  import opened Backoffs

  /** What one turn of the outer loop meets. */
  datatype Attempt = DialFails | StreamFails | Connected

  /** What the select statement wakes up with: a record and whether sending it succeeds, or the context's end. */
  datatype Wakeup = Buf(record: string, sendOk: bool) | Done

  /** One stream's history: the records sent on it, and how it ended. */
  datatype End = Failed(record: string) | Finished | StillOpen
  datatype Stream = Stream(sent: seq<string>, end: End)

  function SentOn(sent: seq<string>): seq<Wakeup> {
    seq(|sent|, i requires 0 <= i < |sent| => Buf(sent[i], true))
  }

  /** What the select statement delivered during a stream. */
  function Delivered(s: Stream): seq<Wakeup> {
    SentOn(s.sent) + Ending(s.end)
  }

  function DeliveredAll(streams: seq<Stream>): seq<Wakeup> {
    if streams == [] then [] else DeliveredAll(streams[..|streams| - 1]) + Delivered(streams[|streams| - 1])
  }

  /** A stream that did not fail is the last one. */
  predicate OnlyLastEnds(streams: seq<Stream>) {
    forall i :: 0 <= i < |streams| - 1 ==> streams[i].end.Failed?
  }

  predicate Over(streams: seq<Stream>) {
    streams != [] && !streams[|streams| - 1].end.Failed?
  }

  class Sender {
    var streams: seq<Stream>
    var puts: nat         // buffers given back to the pool
    var closes: nat       // connections closed
    const backoff: Backoff

    constructor ()
      ensures streams == [] && puts == 0 && closes == 0 && fresh(backoff) && backoff.duration == 0
    {
      streams, puts, closes := [], 0, 0;
      backoff := new Backoff();
    }

    /** structpb and protobuf: one stream. */
    method SendLoop(wakeups: seq<Wakeup>, start: nat) returns (s: Stream, n: nat)
      requires start <= |wakeups|
      modifies `puts
      ensures start <= n <= |wakeups| && wakeups[start..n] == Delivered(s)
      ensures puts == old(puts) + |s.sent|
      ensures s.end.StillOpen? ==> n == |wakeups|
    {
      n := start;
      var sent: seq<string> := [];
      while n < |wakeups|
        invariant start <= n <= |wakeups| && wakeups[start..n] == SentOn(sent)
        invariant puts == old(puts) + |sent|
      {
        assert wakeups[start..n + 1] == wakeups[start..n] + [wakeups[n]];
        n := n + 1;
        match wakeups[n - 1] {
        case Buf(record, sendOk) =>
          if !sendOk {
            return Stream(sent, Failed(record)), n;
          }
          assert SentOn(sent + [record]) == SentOn(sent) + [Buf(record, true)];
          sent := sent + [record];
          puts := puts + 1;
        case Done =>
          return Stream(sent, Finished), n;
        }
      }
      return Stream(sent, StillOpen), n;
    }

    /** One stream more, and one closed connection more if it breaks. */
    method Stay(wakeups: seq<Wakeup>, start: nat) returns (n: nat)
      requires start <= |wakeups| && !Over(streams) && OnlyLastEnds(streams)
      requires DeliveredAll(streams) == wakeups[..start] && puts == |SentRecords(streams)|
      modifies this
      ensures start <= n <= |wakeups| && |streams| == old(|streams|) + 1 && OnlyLastEnds(streams)
      ensures DeliveredAll(streams) == wakeups[..n] && puts == |SentRecords(streams)|
      ensures closes - |FailedRecords(streams)| == old(closes - |FailedRecords(streams)|)
    {
      ghost var before := streams;
      var s;
      s, n := SendLoop(wakeups, start);
      streams := streams + [s];
      assert streams[..|before|] == before;
      assert wakeups[..start] + wakeups[start..n] == wakeups[..n];
      if s.end.Failed? {
        closes := closes + 1;
      }
    }

    /** The goroutine of Start and StartStructPB, until a script is used up or the context is done. Each attempt first
        asks the backoff, whose clock is scripted too; `t` and `n` are how much of the scripts was consumed. */
    method Run(attempts: seq<Attempt>, clocks: seq<Clock>, wakeups: seq<Wakeup>) returns (t: nat, n: nat)
      requires streams == [] && puts == 0 && closes == 0 && backoff.duration == 0 && backoff.last == 0
      requires |clocks| == |attempts|
      modifies this, backoff
      ensures t <= |attempts| && n <= |wakeups|
      ensures DeliveredAll(streams) == wakeups[..n] && OnlyLastEnds(streams)
      ensures |streams| == CountConnected(attempts[..t])
      ensures puts == |SentRecords(streams)|
      ensures closes + |streams| == CountDialed(attempts[..t]) + |FailedRecords(streams)|
      ensures |streams| == |set k | 0 <= k < t && attempts[k].Connected?|
      ensures closes == |set k | 0 <= k < t && attempts[k].StreamFails?| + |FailedRecords(streams)|
      ensures backoff.Contents() == After(clocks, t)
      ensures t == |attempts| || Over(streams)
    {
      t, n := 0, 0;
      while t < |attempts| && !Over(streams)
        invariant t <= |attempts| && n <= |wakeups|
        invariant DeliveredAll(streams) == wakeups[..n] && OnlyLastEnds(streams)
        invariant |streams| == CountConnected(attempts[..t])
        invariant puts == |SentRecords(streams)|
        invariant closes + |streams| == CountDialed(attempts[..t]) + |FailedRecords(streams)|
        invariant backoff.Contents() == After(clocks, t)
        decreases |attempts| - t
      {
        assert attempts[..t + 1][..t] == attempts[..t];
        var _ := backoff.Wait(clocks[t]);
        var attempt := attempts[t];
        t := t + 1;
        match attempt {
        case DialFails =>
        case StreamFails =>
          closes := closes + 1;
        case Connected =>
          n := Stay(wakeups, n);
        }
      }
      ConnectedAreCounted(attempts, t);
      FailuresAreCounted(attempts, t);
    }
  }

  function CountConnected(attempts: seq<Attempt>): nat {
    if attempts == [] then 0
    else CountConnected(attempts[..|attempts| - 1]) + (if attempts[|attempts| - 1].Connected? then 1 else 0)
  }

  function CountDialed(attempts: seq<Attempt>): nat {
    if attempts == [] then 0
    else CountDialed(attempts[..|attempts| - 1]) + (if attempts[|attempts| - 1].DialFails? then 0 else 1)
  }

  lemma {:induction false} ConnectedAreCounted(attempts: seq<Attempt>, t: nat)
    requires t <= |attempts|
    ensures CountConnected(attempts[..t]) == |set k | 0 <= k < t && attempts[k].Connected?|
  {
    if t > 0 {
      var n := t - 1;
      ConnectedAreCounted(attempts, n);
      assert attempts[..t][..n] == attempts[..n];
      var c := set k | 0 <= k < n && attempts[k].Connected?;
      assert (set k | 0 <= k < t && attempts[k].Connected?) == if attempts[n].Connected? then c + {n} else c;
    }
  }

  lemma {:induction false} FailuresAreCounted(attempts: seq<Attempt>, t: nat)
    requires t <= |attempts|
    ensures CountDialed(attempts[..t]) - CountConnected(attempts[..t])
         == |set k | 0 <= k < t && attempts[k].StreamFails?|
  {
    if t > 0 {
      var n := t - 1;
      FailuresAreCounted(attempts, n);
      assert attempts[..t][..n] == attempts[..n];
      var s := set k | 0 <= k < n && attempts[k].StreamFails?;
      assert (set k | 0 <= k < t && attempts[k].StreamFails?) == if attempts[n].StreamFails? then s + {n} else s;
    }
  }

  function SentRecords(streams: seq<Stream>): seq<string> {
    if streams == [] then [] else SentRecords(streams[..|streams| - 1]) + streams[|streams| - 1].sent
  }

  function FailedRecords(streams: seq<Stream>): seq<string> {
    if streams == [] then []
    else
      var last := streams[|streams| - 1];
      FailedRecords(streams[..|streams| - 1]) + (if last.end.Failed? then [last.end.record] else [])
  }

  // ---------------------------------------------------------------- what follows for any run

  /** The records taken from the channel whose sending had the given outcome. */
  function Taken(wakeups: seq<Wakeup>, ok: bool): seq<string> {
    if wakeups == [] then []
    else
      var w := wakeups[|wakeups| - 1];
      Taken(wakeups[..|wakeups| - 1], ok) + (if w.Buf? && w.sendOk == ok then [w.record] else [])
  }

  lemma {:induction false} TakenConcat(a: seq<Wakeup>, b: seq<Wakeup>, ok: bool)
    ensures Taken(a + b, ok) == Taken(a, ok) + Taken(b, ok)
  {
    if b == [] {
      assert a + b == a;
    } else {
      assert (a + b)[..|a + b| - 1] == a + b[..|b| - 1];
      TakenConcat(a, b[..|b| - 1], ok);
    }
  }

  lemma {:induction false} TakenSent(sent: seq<string>)
    ensures Taken(SentOn(sent), true) == sent && Taken(SentOn(sent), false) == []
  {
    if sent != [] {
      var s := sent[..|sent| - 1];
      assert SentOn(sent)[..|sent| - 1] == SentOn(s);
      TakenSent(s);
    }
  }

  function Ending(end: End): seq<Wakeup> {
    match end
    case Failed(r) => [Buf(r, false)]
    case Finished => [Done]
    case StillOpen => []
  }

  lemma TakenAtEnd(end: End)
    ensures Taken(Ending(end), true) == []
    ensures Taken(Ending(end), false) == if end.Failed? then [end.record] else []
  {
  }

  lemma TakenOfStream(s: Stream)
    ensures Taken(Delivered(s), true) == s.sent
    ensures Taken(Delivered(s), false) == if s.end.Failed? then [s.end.record] else []
  {
    TakenConcat(SentOn(s.sent), Ending(s.end), true);
    TakenConcat(SentOn(s.sent), Ending(s.end), false);
    TakenSent(s.sent);
    TakenAtEnd(s.end);
  }

  /** Over any number of reconnects: every record taken is either sent or lost, in order. */
  lemma {:induction false} RecordsAreAccountedFor(streams: seq<Stream>)
    ensures Taken(DeliveredAll(streams), true) == SentRecords(streams)
    ensures Taken(DeliveredAll(streams), false) == FailedRecords(streams)
  {
    if streams != [] {
      var before, s := streams[..|streams| - 1], streams[|streams| - 1];
      RecordsAreAccountedFor(before);
      TakenConcat(DeliveredAll(before), Delivered(s), true);
      TakenConcat(DeliveredAll(before), Delivered(s), false);
      TakenOfStream(s);
    }
  }

  /** Each stream that breaks loses exactly one record; the last one may not have broken. */
  lemma {:induction false} OneLossEach(streams: seq<Stream>)
    requires OnlyLastEnds(streams)
    ensures |FailedRecords(streams)| == if Over(streams) then |streams| - 1 else |streams|
  {
    if streams != [] {
      var before := streams[..|streams| - 1];
      assert before != [] ==> before[|before| - 1].end.Failed?;
      OneLossEach(before);
    }
  }
}
