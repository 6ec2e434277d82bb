/** Pooled buffers on the agent (ebpf/bcc.go:68-92, tcpdog/main.go:41-75 and the consumer loops of the egresses): any
    number of workers and consumers, one bounded channel for each egress, one pool for all, in any interleaving. */
module Agent {
  import opened Text

  /** A worker between events; with a buffer taken from the pool but not yet reset; printing a record into it. */
  datatype Worker = Free | Taken(buf: nat, record: string) | Printing(buf: nat, record: string)

  /** A consumer waiting on its channel; or reading a record out of a buffer, `got` being what it has read. */
  datatype Consumer = Waiting | Reading(buf: nat, record: string, got: string)

  /** Where a buffer is: bookkeeping for the proof, read by no step. */
  datatype Place = InPool | AtWorker(w: nat) | InChannel(egress: string) | AtConsumer(c: nat) | Gone

  /** A record put on a channel by a worker. */
  datatype Sent = Sent(worker: nat, record: string)

  /** One record a worker has printed, and whether the channel had room for it. */
  datatype Printed = Printed(record: string, kept: bool)

  datatype State = State(
    workers: map<nat, Worker>,
    consumers: map<nat, Consumer>,
    channels: map<string, seq<nat>>,
    pool: multiset<nat>,
    store: map<nat, string>,             // the contents of every buffer ever made
    place: map<nat, Place>,
    sent: map<string, seq<Sent>>,        // history of each channel
    received: map<string, nat>,          // how many of those were taken out
    printed: map<nat, seq<Printed>>      // history of each worker
  )

  /** Which channel each worker sends on and each consumer receives from. */
  datatype Topology = Topology(sends: map<nat, string>, receives: map<nat, string>)

  const CAPACITY := 1000

  datatype Action =
    | Get(w: nat, record: string, buf: nat)   // an event arrives; a buffer comes out of the pool
    | New(w: nat, record: string, buf: nat)   // ... or the pool makes one
    | Collect(buf: nat)                       // the pool lets a buffer go
    | Reset(w: nat)
    | Print(w: nat, n: nat)                   // decode writes n more bytes
    | Send(w: nat)                            // the non-blocking send, or the drop
    | Receive(c: nat)
    | Read(c: nat, n: nat)
    | Put(c: nat)
    | Abandon(c: nat)                         // a failed send returns without Put

  // ---------------------------------------------------------------- steps

  ghost predicate Shaped(t: Topology, s: State) {
    && s.workers.Keys == t.sends.Keys && s.printed.Keys == t.sends.Keys
    && s.consumers.Keys == t.receives.Keys
    && s.sent.Keys == s.channels.Keys && s.received.Keys == s.channels.Keys
    && (forall w :: w in t.sends ==> t.sends[w] in s.channels)
    && (forall c :: c in t.receives ==> t.receives[c] in s.channels)
  }

  predicate Enabled(t: Topology, s: State, a: Action) {
    match a
    case Get(w, _, buf) => w in s.workers && s.workers[w].Free? && s.pool[buf] > 0
    case New(w, _, buf) => w in s.workers && s.workers[w].Free? && buf !in s.store
    case Collect(buf) => s.pool[buf] > 0
    case Reset(w) => w in s.workers && s.workers[w].Taken?
    case Print(w, n) =>
      && w in s.workers && s.workers[w].Printing? && s.workers[w].buf in s.store
      && |s.store[s.workers[w].buf]| + n <= |s.workers[w].record|
    case Send(w) =>
      && w in s.workers && s.workers[w].Printing? && s.workers[w].buf in s.store
      && |s.store[s.workers[w].buf]| == |s.workers[w].record|
    case Receive(c) => c in s.consumers && s.consumers[c].Waiting? && c in t.receives && t.receives[c] in s.channels
                       && s.channels[t.receives[c]] != []
    case Read(c, n) => c in s.consumers && s.consumers[c].Reading? && s.consumers[c].buf in s.store
    case Put(c) => c in s.consumers && s.consumers[c].Reading?
    case Abandon(c) => c in s.consumers && s.consumers[c].Reading?
  }

  function DoGet(s: State, w: nat, record: string, b: nat): State
    requires s.pool[b] > 0
  {
    s.(pool := s.pool[b := s.pool[b] - 1], workers := s.workers[w := Taken(b, record)],
       place := s.place[b := AtWorker(w)])
  }

  function DoNew(s: State, w: nat, record: string, b: nat): State {
    s.(store := s.store[b := ""], workers := s.workers[w := Taken(b, record)], place := s.place[b := AtWorker(w)])
  }

  function DoCollect(s: State, b: nat): State
    requires s.pool[b] > 0
  {
    s.(pool := s.pool[b := s.pool[b] - 1], place := s.place[b := Gone])
  }

  function DoReset(s: State, w: nat): State
    requires w in s.workers && s.workers[w].Taken?
  {
    var b := s.workers[w].buf;
    s.(store := s.store[b := ""], workers := s.workers[w := Printing(b, s.workers[w].record)])
  }

  function DoPrint(s: State, w: nat, n: nat): State
    requires w in s.workers && s.workers[w].Printing? && s.workers[w].buf in s.store
    requires |s.store[s.workers[w].buf]| + n <= |s.workers[w].record|
  {
    var b := s.workers[w].buf;
    var k := |s.store[b]|;
    s.(store := s.store[b := s.store[b] + s.workers[w].record[k..k + n]])
  }

  predicate HasRoom(s: State, e: string)
    requires e in s.channels
  {
    |s.channels[e]| < CAPACITY
  }

  /** The channel takes the buffer. */
  function DoSend(s: State, w: nat, e: string): State
    requires w in s.workers && w in s.printed && s.workers[w].Printing? && s.workers[w].buf in s.store
    requires e in s.channels && e in s.sent
  {
    var b := s.workers[w].buf;
    s.(workers := s.workers[w := Free], printed := s.printed[w := s.printed[w] + [Printed(s.workers[w].record, true)]],
       channels := s.channels[e := s.channels[e] + [b]], place := s.place[b := InChannel(e)],
       sent := s.sent[e := s.sent[e] + [Sent(w, s.store[b])]])
  }

  /** The channel is full: the record is lost, and the buffer with it. */
  function DoDrop(s: State, w: nat): State
    requires w in s.workers && w in s.printed && s.workers[w].Printing?
  {
    s.(workers := s.workers[w := Free], printed := s.printed[w := s.printed[w] + [Printed(s.workers[w].record, false)]],
       place := s.place[s.workers[w].buf := Gone])
  }

  function DoReceive(s: State, c: nat, e: string): State
    requires e in s.channels && e in s.sent && e in s.received && s.channels[e] != []
  {
    var b := s.channels[e][0];
    var record := if s.received[e] < |s.sent[e]| then s.sent[e][s.received[e]].record else "";
    s.(channels := s.channels[e := s.channels[e][1..]], received := s.received[e := s.received[e] + 1],
       place := s.place[b := AtConsumer(c)], consumers := s.consumers[c := Reading(b, record, "")])
  }

  function DoRead(s: State, c: nat, n: nat): State
    requires c in s.consumers && s.consumers[c].Reading? && s.consumers[c].buf in s.store
  {
    var r := s.consumers[c];
    s.(consumers := s.consumers[c := r.(got := r.got + Front(s.store[r.buf], n))],
       store := s.store[r.buf := After(s.store[r.buf], n)])
  }

  function DoPut(s: State, c: nat): State
    requires c in s.consumers && s.consumers[c].Reading?
  {
    var b := s.consumers[c].buf;
    s.(pool := s.pool[b := s.pool[b] + 1], consumers := s.consumers[c := Waiting], place := s.place[b := InPool])
  }

  function DoAbandon(s: State, c: nat): State
    requires c in s.consumers && s.consumers[c].Reading?
  {
    s.(consumers := s.consumers[c := Waiting], place := s.place[s.consumers[c].buf := Gone])
  }

  function Step(t: Topology, s: State, a: Action): State
    requires Shaped(t, s) && Enabled(t, s, a)
  {
    match a
    case Get(w, record, buf) => DoGet(s, w, record, buf)
    case New(w, record, buf) => DoNew(s, w, record, buf)
    case Collect(buf) => DoCollect(s, buf)
    case Reset(w) => DoReset(s, w)
    case Print(w, n) => DoPrint(s, w, n)
    case Send(w) => if HasRoom(s, t.sends[w]) then DoSend(s, w, t.sends[w]) else DoDrop(s, w)
    case Receive(c) => DoReceive(s, c, t.receives[c])
    case Read(c, n) => DoRead(s, c, n)
    case Put(c) => DoPut(s, c)
    case Abandon(c) => DoAbandon(s, c)
  }

  // ---------------------------------------------------------------- what every step keeps

  /** Buffer b is in place p and nowhere else. */
  predicate At(s: State, b: nat, p: Place) {
    b in s.store && b in s.place && s.place[b] == p
  }

  ghost predicate PoolOwns(s: State) {
    forall b :: s.pool[b] > 0 ==> s.pool[b] == 1 && At(s, b, InPool)
  }

  ghost predicate WorkerOwns(s: State, w: nat)
    requires w in s.workers
  {
    match s.workers[w]
    case Free => true
    case Taken(b, _) => At(s, b, AtWorker(w))
    case Printing(b, record) => At(s, b, AtWorker(w)) && s.store[b] <= record
  }

  ghost predicate ConsumerOwns(s: State, c: nat)
    requires c in s.consumers
  {
    match s.consumers[c]
    case Waiting => true
    case Reading(b, record, got) => At(s, b, AtConsumer(c)) && got + s.store[b] == record
  }

  ghost predicate ChannelOwns(s: State, e: string)
    requires e in s.channels && e in s.sent && e in s.received
  {
    var q := s.channels[e];
    && |q| <= CAPACITY
    && s.received[e] + |q| == |s.sent[e]|
    && (forall i :: 0 <= i < |q| ==> At(s, q[i], InChannel(e)) && s.store[q[i]] == s.sent[e][s.received[e] + i].record)
    && (forall i, j :: 0 <= i < j < |q| ==> q[i] != q[j])
  }

  ghost predicate Owned(t: Topology, s: State) {
    && Shaped(t, s)
    && PoolOwns(s)
    && s.place.Keys == s.store.Keys
    && (forall w :: w in s.workers ==> WorkerOwns(s, w))
    && (forall c :: c in s.consumers ==> ConsumerOwns(s, c))
    && (forall e :: e in s.channels ==> ChannelOwns(s, e))
  }

  /** From s to s' only buffer b changes hands or contents. */
  ghost predicate OnlyMoves(s: State, s': State, b: nat) {
    && s'.store.Keys == s.store.Keys + {b} && s'.place.Keys == s.place.Keys + {b}
    && (forall x :: x in s.store && x != b && x in s.place ==> s'.store[x] == s.store[x] && s'.place[x] == s.place[x])
    && (forall x :: x != b ==> s'.pool[x] == s.pool[x])
  }

  ghost predicate WorkerKept(s: State, s': State, b: nat, w: nat) {
    w in s.workers && w in s'.workers && s'.workers[w] == s.workers[w] && (s.workers[w].Free? || s.workers[w].buf != b)
  }

  ghost predicate ConsumerKept(s: State, s': State, b: nat, c: nat) {
    c in s.consumers && c in s'.consumers && s'.consumers[c] == s.consumers[c]
    && (s.consumers[c].Waiting? || s.consumers[c].buf != b)
  }

  ghost predicate ChannelKept(t: Topology, s: State, s': State, b: nat, e: string)
    requires Shaped(t, s) && Shaped(t, s')
  {
    e in s.channels && e in s'.channels && s'.channels[e] == s.channels[e] && b !in s.channels[e]
    && s'.sent[e] == s.sent[e] && s'.received[e] == s.received[e]
  }

  /** If only b moves, it is enough to look at those who hold it before or after. */
  lemma Rebuild(t: Topology, s: State, s': State, b: nat)
    requires Owned(t, s) && Shaped(t, s') && OnlyMoves(s, s', b)
    requires s'.pool[b] > 0 ==> s'.pool[b] == 1 && At(s', b, InPool)
    requires forall w :: w in s'.workers ==> WorkerKept(s, s', b, w) || WorkerOwns(s', w)
    requires forall c :: c in s'.consumers ==> ConsumerKept(s, s', b, c) || ConsumerOwns(s', c)
    requires forall e :: e in s'.channels ==> ChannelKept(t, s, s', b, e) || ChannelOwns(s', e)
    ensures Owned(t, s')
  {
    forall w | w in s'.workers
      ensures WorkerOwns(s', w)
    {
      if WorkerKept(s, s', b, w) {
        assert WorkerOwns(s, w);
      }
    }
    forall c | c in s'.consumers
      ensures ConsumerOwns(s', c)
    {
      if ConsumerKept(s, s', b, c) {
        assert ConsumerOwns(s, c);
      }
    }
    forall e | e in s'.channels
      ensures ChannelOwns(s', e)
    {
      if ChannelKept(t, s, s', b, e) {
        ChannelStays(t, s, s', b, e);
      }
    }
    forall x | s'.pool[x] > 0
      ensures s'.pool[x] == 1 && At(s', x, InPool)
    {
      assert x != b ==> At(s, x, InPool);
    }
  }

  lemma ChannelStays(t: Topology, s: State, s': State, b: nat, e: string)
    requires Owned(t, s) && Shaped(t, s') && OnlyMoves(s, s', b)
    requires ChannelKept(t, s, s', b, e)
    ensures ChannelOwns(s', e)
  {
  }

  /** Whoever is not where buffer b is does not hold it. */
  lemma OthersHoldOthers(t: Topology, s: State, b: nat)
    requires Owned(t, s)
    ensures forall w :: w in s.workers && !s.workers[w].Free? && (b in s.place ==> s.place[b] != AtWorker(w)) ==>
              s.workers[w].buf != b
    ensures forall c ::
              c in s.consumers && !s.consumers[c].Waiting? && (b in s.place ==> s.place[b] != AtConsumer(c)) ==>
              s.consumers[c].buf != b
    ensures forall e :: e in s.channels && (b in s.place ==> s.place[b] != InChannel(e)) ==> b !in s.channels[e]
    ensures (b in s.place ==> s.place[b] != InPool) ==> s.pool[b] == 0
  {
  }

  lemma OtherWorkersKept(t: Topology, s: State, s': State, b: nat, w: nat)
    requires Owned(t, s) && w in s.workers && w in s'.workers
    requires s'.workers == s.workers[w := s'.workers[w]]
    requires b in s.place ==> s.place[b] == AtWorker(w) || s.place[b] == InPool
    ensures forall v :: v in s'.workers && v != w ==> WorkerKept(s, s', b, v)
  {
  }

  lemma ConsumersAndChannelsKept(t: Topology, s: State, s': State, b: nat)
    requires Owned(t, s) && Shaped(t, s')
    requires (s'.consumers, s'.channels, s'.sent, s'.received) == (s.consumers, s.channels, s.sent, s.received)
    requires b in s.place ==> s.place[b].AtWorker? || s.place[b].InPool?
    ensures forall c :: c in s'.consumers ==> ConsumerKept(s, s', b, c)
    ensures forall e :: e in s'.channels ==> ChannelKept(t, s, s', b, e)
  {
  }

  /** A step of worker w that moves or fills buffer b, which it has, gets from the pool, or makes. */
  lemma RebuildForWorker(t: Topology, s: State, s': State, b: nat, w: nat)
    requires Owned(t, s) && w in s.workers && OnlyMoves(s, s', b)
    requires b in s.place ==> s.place[b] == AtWorker(w) || s.place[b] == InPool
    requires (s'.consumers, s'.channels, s'.sent, s'.received) == (s.consumers, s.channels, s.sent, s.received)
    requires w in s'.workers && s'.workers == s.workers[w := s'.workers[w]] && s'.printed.Keys == s.printed.Keys
    requires WorkerOwns(s', w) && s'.pool[b] == 0
    ensures Owned(t, s')
  {
    OtherWorkersKept(t, s, s', b, w);
    ConsumersAndChannelsKept(t, s, s', b);
    Rebuild(t, s, s', b);
  }

  lemma OtherConsumersKept(t: Topology, s: State, s': State, b: nat, c: nat)
    requires Owned(t, s) && c in s.consumers && c in s'.consumers
    requires s'.consumers == s.consumers[c := s'.consumers[c]]
    requires b in s.place && s.place[b] == AtConsumer(c)
    ensures forall d :: d in s'.consumers && d != c ==> ConsumerKept(s, s', b, d)
  {
  }

  lemma WorkersAndChannelsKept(t: Topology, s: State, s': State, b: nat)
    requires Owned(t, s) && Shaped(t, s')
    requires (s'.workers, s'.channels, s'.sent, s'.received) == (s.workers, s.channels, s.sent, s.received)
    requires b in s.place && s.place[b].AtConsumer?
    ensures forall w :: w in s'.workers ==> WorkerKept(s, s', b, w)
    ensures forall e :: e in s'.channels ==> ChannelKept(t, s, s', b, e)
    ensures s.pool[b] == 0
  {
  }

  /** A step of consumer c on the buffer it reads. */
  lemma RebuildForConsumer(t: Topology, s: State, s': State, c: nat)
    requires Owned(t, s) && c in s.consumers && s.consumers[c].Reading? && OnlyMoves(s, s', s.consumers[c].buf)
    requires (s'.workers, s'.channels, s'.sent, s'.received, s'.printed)
        == (s.workers, s.channels, s.sent, s.received, s.printed)
    requires c in s'.consumers && s'.consumers == s.consumers[c := s'.consumers[c]]
    requires ConsumerOwns(s', c)
    requires var b := s.consumers[c].buf; s'.pool[b] == s.pool[b] || (s'.pool[b] == s.pool[b] + 1 && At(s', b, InPool))
    ensures Owned(t, s')
  {
    var b := s.consumers[c].buf;
    assert ConsumerOwns(s, c);
    OtherConsumersKept(t, s, s', b, c);
    WorkersAndChannelsKept(t, s, s', b);
    Rebuild(t, s, s', b);
  }

  lemma PooledOnce(t: Topology, s: State, b: nat)
    requires Owned(t, s) && s.pool[b] > 0
    ensures s.pool[b] == 1 && At(s, b, InPool)
  {
  }

  lemma GetKeeps(t: Topology, s: State, w: nat, record: string, b: nat)
    requires Owned(t, s) && w in s.workers && s.workers[w].Free? && s.pool[b] > 0
    ensures Owned(t, DoGet(s, w, record, b))
  {
    PooledOnce(t, s, b);
    RebuildForWorker(t, s, DoGet(s, w, record, b), b, w);
  }

  lemma NewKeeps(t: Topology, s: State, w: nat, record: string, b: nat)
    requires Owned(t, s) && w in s.workers && s.workers[w].Free? && b !in s.store
    ensures Owned(t, DoNew(s, w, record, b))
  {
    OthersHoldOthers(t, s, b);
    RebuildForWorker(t, s, DoNew(s, w, record, b), b, w);
  }

  lemma CollectKeeps(t: Topology, s: State, b: nat)
    requires Owned(t, s) && s.pool[b] > 0
    ensures Owned(t, DoCollect(s, b))
  {
  }

  lemma ResetKeeps(t: Topology, s: State, w: nat)
    requires Owned(t, s) && w in s.workers && s.workers[w].Taken?
    ensures Owned(t, DoReset(s, w))
  {
    assert WorkerOwns(s, w);
    OthersHoldOthers(t, s, s.workers[w].buf);
    RebuildForWorker(t, s, DoReset(s, w), s.workers[w].buf, w);
  }

  lemma PrintKeeps(t: Topology, s: State, w: nat, n: nat)
    requires Owned(t, s) && w in s.workers && s.workers[w].Printing? && s.workers[w].buf in s.store
    requires |s.store[s.workers[w].buf]| + n <= |s.workers[w].record|
    ensures Owned(t, DoPrint(s, w, n))
  {
    var b, record := s.workers[w].buf, s.workers[w].record;
    var k := |s.store[b]|;
    assert WorkerOwns(s, w);
    OthersHoldOthers(t, s, b);
    assert s.store[b] + record[k..k + n] == record[..k + n];
    assert s.workers[w := s.workers[w]] == s.workers;
    RebuildForWorker(t, s, DoPrint(s, w, n), b, w);
  }

  lemma SentChannelOwns(t: Topology, s: State, w: nat, e: string)
    requires Owned(t, s) && w in s.workers && s.workers[w].Printing? && e in s.channels && HasRoom(s, e)
    requires WorkerOwns(s, w)
    ensures ChannelOwns(DoSend(s, w, e), e)
  {
  }

  lemma SendMoves(t: Topology, s: State, w: nat)
    requires Owned(t, s) && w in s.workers && s.workers[w].Printing? && WorkerOwns(s, w)
    ensures var s', b := DoSend(s, w, t.sends[w]), s.workers[w].buf;
            Shaped(t, s') && OnlyMoves(s, s', b) && s'.pool[b] == 0
  {
    OthersHoldOthers(t, s, s.workers[w].buf);
  }

  lemma SendLeavesOthers(t: Topology, s: State, w: nat)
    requires Owned(t, s) && w in s.workers && s.workers[w].Printing? && WorkerOwns(s, w)
    requires Shaped(t, DoSend(s, w, t.sends[w]))
    ensures var s', b := DoSend(s, w, t.sends[w]), s.workers[w].buf;
            && (forall v :: v in s'.workers && v != w ==> WorkerKept(s, s', b, v))
            && (forall c :: c in s'.consumers ==> ConsumerKept(s, s', b, c))
            && (forall d :: d in s'.channels && d != t.sends[w] ==> ChannelKept(t, s, s', b, d))
  {
    OthersHoldOthers(t, s, s.workers[w].buf);
  }

  lemma SendKeeps(t: Topology, s: State, w: nat)
    requires Owned(t, s) && w in s.workers && s.workers[w].Printing? && HasRoom(s, t.sends[w])
    ensures WorkerOwns(s, w)
    ensures Owned(t, DoSend(s, w, t.sends[w]))
  {
    assert WorkerOwns(s, w);
    SendMoves(t, s, w);
    SendLeavesOthers(t, s, w);
    SentChannelOwns(t, s, w, t.sends[w]);
    assert WorkerOwns(DoSend(s, w, t.sends[w]), w);
    Rebuild(t, s, DoSend(s, w, t.sends[w]), s.workers[w].buf);
  }

  lemma DropKeeps(t: Topology, s: State, w: nat)
    requires Owned(t, s) && w in s.workers && s.workers[w].Printing?
    ensures Owned(t, DoDrop(s, w))
  {
    assert WorkerOwns(s, w);
    OthersHoldOthers(t, s, s.workers[w].buf);
    RebuildForWorker(t, s, DoDrop(s, w), s.workers[w].buf, w);
  }

  lemma ReceivedChannelOwns(t: Topology, s: State, c: nat, e: string)
    requires Owned(t, s) && c in s.consumers && e in s.channels && s.channels[e] != []
    ensures At(s, s.channels[e][0], InChannel(e)) && s.received[e] < |s.sent[e]|
    ensures s.store[s.channels[e][0]] == s.sent[e][s.received[e]].record
    ensures ChannelOwns(DoReceive(s, c, e), e)
  {
  }

  lemma ReceiveMoves(t: Topology, s: State, c: nat, e: string)
    requires Owned(t, s) && c in s.consumers && e in s.channels && s.channels[e] != []
    requires At(s, s.channels[e][0], InChannel(e))
    ensures var s', b := DoReceive(s, c, e), s.channels[e][0];
            Shaped(t, s') && OnlyMoves(s, s', b) && s'.pool[b] == 0
  {
    OthersHoldOthers(t, s, s.channels[e][0]);
  }

  lemma ReceiveLeavesOthers(t: Topology, s: State, c: nat, e: string)
    requires Owned(t, s) && c in s.consumers && e in s.channels && s.channels[e] != []
    requires At(s, s.channels[e][0], InChannel(e)) && Shaped(t, DoReceive(s, c, e))
    ensures var s', b := DoReceive(s, c, e), s.channels[e][0];
            && (forall v :: v in s'.workers ==> WorkerKept(s, s', b, v))
            && (forall d :: d in s'.consumers && d != c ==> ConsumerKept(s, s', b, d))
            && (forall d :: d in s'.channels && d != e ==> ChannelKept(t, s, s', b, d))
  {
  }

  lemma ReceiverOwns(t: Topology, s: State, c: nat, e: string)
    requires Owned(t, s) && c in s.consumers && e in s.channels && s.channels[e] != []
    ensures c in DoReceive(s, c, e).consumers && ConsumerOwns(DoReceive(s, c, e), c)
  {
    ReceivedChannelOwns(t, s, c, e);
    assert "" + s.store[s.channels[e][0]] == s.store[s.channels[e][0]];
  }

  lemma ReceiveKeeps(t: Topology, s: State, c: nat)
    requires Owned(t, s) && c in s.consumers && s.consumers[c].Waiting? && s.channels[t.receives[c]] != []
    ensures Owned(t, DoReceive(s, c, t.receives[c]))
  {
    var e := t.receives[c];
    ReceivedChannelOwns(t, s, c, e);
    ReceiveMoves(t, s, c, e);
    ReceiveLeavesOthers(t, s, c, e);
    ReceiverOwns(t, s, c, e);
    Rebuild(t, s, DoReceive(s, c, e), s.channels[e][0]);
  }

  lemma ReadKeeps(t: Topology, s: State, c: nat, n: nat)
    requires Owned(t, s) && c in s.consumers && s.consumers[c].Reading?
    ensures ConsumerOwns(s, c)
    ensures Owned(t, DoRead(s, c, n))
  {
    var r := s.consumers[c];
    assert ConsumerOwns(s, c);
    FrontAndAfter(s.store[r.buf], n);
    ConcatAssoc(r.got, Front(s.store[r.buf], n), After(s.store[r.buf], n));
    RebuildForConsumer(t, s, DoRead(s, c, n), c);
  }

  lemma FrontAndAfter(s: string, n: nat)
    ensures Front(s, n) + After(s, n) == s
  {
  }

  lemma PutKeeps(t: Topology, s: State, c: nat)
    requires Owned(t, s) && c in s.consumers && s.consumers[c].Reading?
    ensures Owned(t, DoPut(s, c))
  {
    assert ConsumerOwns(s, c);
    RebuildForConsumer(t, s, DoPut(s, c), c);
  }

  lemma AbandonKeeps(t: Topology, s: State, c: nat)
    requires Owned(t, s) && c in s.consumers && s.consumers[c].Reading?
    ensures Owned(t, DoAbandon(s, c))
  {
    assert ConsumerOwns(s, c);
    RebuildForConsumer(t, s, DoAbandon(s, c), c);
  }

  lemma ReaderStepKeeps(t: Topology, s: State, a: Action)
    requires Owned(t, s) && Enabled(t, s, a) && (a.Receive? || a.Read?)
    ensures Owned(t, Step(t, s, a))
  {
    match a
    case Receive(c) => ReceiveKeeps(t, s, c);
    case Read(c, n) => ReadKeeps(t, s, c, n);
  }

  lemma ReturnStepKeeps(t: Topology, s: State, a: Action)
    requires Owned(t, s) && Enabled(t, s, a) && (a.Put? || a.Abandon?)
    ensures Owned(t, Step(t, s, a))
  {
    match a
    case Put(c) => PutKeeps(t, s, c);
    case Abandon(c) => AbandonKeeps(t, s, c);
  }

  lemma PoolStepKeeps(t: Topology, s: State, a: Action)
    requires Owned(t, s) && Enabled(t, s, a) && (a.Get? || a.New? || a.Collect?)
    ensures Owned(t, Step(t, s, a))
  {
    match a
    case Get(w, record, buf) => GetKeeps(t, s, w, record, buf);
    case New(w, record, buf) => NewKeeps(t, s, w, record, buf);
    case Collect(buf) => CollectKeeps(t, s, buf);
  }

  lemma WorkerStepKeeps(t: Topology, s: State, a: Action)
    requires Owned(t, s) && Enabled(t, s, a) && (a.Reset? || a.Print? || a.Send?)
    ensures Owned(t, Step(t, s, a))
  {
    match a
    case Reset(w) => ResetKeeps(t, s, w);
    case Print(w, n) => PrintKeeps(t, s, w, n);
    case Send(w) => if HasRoom(s, t.sends[w]) { SendKeeps(t, s, w); } else { DropKeeps(t, s, w); }
  }

  /** Every step, of whichever worker or consumer, keeps the ownership discipline. */
  lemma StepKeepsOwned(t: Topology, s: State, a: Action)
    requires Owned(t, s) && Enabled(t, s, a)
    ensures Owned(t, Step(t, s, a))
  {
    if a.Receive? || a.Read? {
      ReaderStepKeeps(t, s, a);
    } else if a.Put? || a.Abandon? {
      ReturnStepKeeps(t, s, a);
    } else if a.Reset? || a.Print? || a.Send? {
      WorkerStepKeeps(t, s, a);
    } else {
      PoolStepKeeps(t, s, a);
    }
  }

  // ---------------------------------------------------------------- records keep their order

  /** What one worker put on a channel, in order. */
  function FromWorker(sent: seq<Sent>, w: nat): seq<string> {
    if sent == [] then []
    else
      var last := sent[|sent| - 1];
      FromWorker(sent[..|sent| - 1], w) + (if last.worker == w then [last.record] else [])
  }

  function Kept(printed: seq<Printed>): seq<string> {
    if printed == [] then []
    else
      var last := printed[|printed| - 1];
      Kept(printed[..|printed| - 1]) + (if last.kept then [last.record] else [])
  }

  /** Each worker's channel has, of that worker, exactly the records it printed and did not drop, in its order. */
  ghost predicate InOrder(t: Topology, s: State)
    requires Shaped(t, s)
  {
    forall w :: w in s.workers ==> FromWorker(s.sent[t.sends[w]], w) == Kept(s.printed[w])
  }

  lemma FromWorkerSnoc(sent: seq<Sent>, x: Sent, w: nat)
    ensures FromWorker(sent + [x], w) == FromWorker(sent, w) + (if x.worker == w then [x.record] else [])
  {
  }

  lemma KeptSnoc(printed: seq<Printed>, x: Printed)
    ensures Kept(printed + [x]) == Kept(printed) + (if x.kept then [x.record] else [])
  {
  }

  lemma SendKeepsOrder(t: Topology, s: State, w: nat)
    requires Owned(t, s) && InOrder(t, s) && w in s.workers && s.workers[w].Printing?
    requires s.workers[w].buf in s.store && |s.store[s.workers[w].buf]| == |s.workers[w].record|
    requires Shaped(t, DoSend(s, w, t.sends[w]))
    ensures InOrder(t, DoSend(s, w, t.sends[w]))
  {
    var e, b, record, s' := t.sends[w], s.workers[w].buf, s.workers[w].record, DoSend(s, w, t.sends[w]);
    assert WorkerOwns(s, w);
    assert s.store[b] == record;
    assert s'.sent == s.sent[e := s.sent[e] + [Sent(w, record)]];
    assert s'.printed == s.printed[w := s.printed[w] + [Printed(record, true)]];
    forall v | v in s'.workers
      ensures FromWorker(s'.sent[t.sends[v]], v) == Kept(s'.printed[v])
    {
      SentIsKept(t, s, s', w, v, record);
    }
  }

  lemma SentIsKept(t: Topology, s: State, s': State, w: nat, v: nat, record: string)
    requires Shaped(t, s) && InOrder(t, s) && w in s.workers && v in s.workers
    requires s'.sent == s.sent[t.sends[w] := s.sent[t.sends[w]] + [Sent(w, record)]]
    requires s'.printed == s.printed[w := s.printed[w] + [Printed(record, true)]]
    ensures FromWorker(s'.sent[t.sends[v]], v) == Kept(s'.printed[v])
  {
    assert FromWorker(s.sent[t.sends[v]], v) == Kept(s.printed[v]);
    FromWorkerSnoc(s.sent[t.sends[w]], Sent(w, record), v);
    KeptSnoc(s.printed[w], Printed(record, true));
  }

  lemma DropKeepsOrder(t: Topology, s: State, w: nat)
    requires Shaped(t, s) && InOrder(t, s) && w in s.workers && s.workers[w].Printing?
    requires Shaped(t, DoDrop(s, w))
    ensures InOrder(t, DoDrop(s, w))
  {
  }

  predicate OfConsumer(a: Action) {
    a.Receive? || a.Read? || a.Put? || a.Abandon?
  }

  lemma ReceiveSendsNothing(t: Topology, s: State, a: Action)
    requires Shaped(t, s) && Enabled(t, s, a) && a.Receive?
    ensures Step(t, s, a).sent == s.sent && Step(t, s, a).printed == s.printed
  {
  }

  lemma ConsumersSendNothing(t: Topology, s: State, a: Action)
    requires Shaped(t, s) && Enabled(t, s, a) && OfConsumer(a)
    ensures Step(t, s, a).sent == s.sent && Step(t, s, a).printed == s.printed
  {
    if a.Receive? {
      ReceiveSendsNothing(t, s, a);
    }
  }

  lemma OthersSendNothing(t: Topology, s: State, a: Action)
    requires Shaped(t, s) && Enabled(t, s, a) && !a.Send?
    ensures Step(t, s, a).sent == s.sent && Step(t, s, a).printed == s.printed
  {
    if OfConsumer(a) {
      ConsumersSendNothing(t, s, a);
    }
  }

  lemma SameOrder(t: Topology, s: State, s': State)
    requires Shaped(t, s) && Shaped(t, s') && InOrder(t, s) && s'.sent == s.sent && s'.printed == s.printed
    ensures InOrder(t, s')
  {
    forall v | v in s'.workers
      ensures FromWorker(s'.sent[t.sends[v]], v) == Kept(s'.printed[v])
    {
      assert v in s.workers;
    }
  }

  lemma StepKeepsOrder(t: Topology, s: State, a: Action)
    requires Owned(t, s) && InOrder(t, s) && Enabled(t, s, a) && Shaped(t, Step(t, s, a))
    ensures InOrder(t, Step(t, s, a))
  {
    if a.Send? {
      if HasRoom(s, t.sends[a.w]) {
        SendKeepsOrder(t, s, a.w);
      } else {
        DropKeepsOrder(t, s, a.w);
      }
    } else {
      OthersSendNothing(t, s, a);
      SameOrder(t, s, Step(t, s, a));
    }
  }

  // ---------------------------------------------------------------- records are not made up

  /** Every record ever put on channel e came from a worker that sends there. */
  ghost predicate SentByItsWorkers(t: Topology, s: State, e: string)
    requires e in s.sent
  {
    forall i :: 0 <= i < |s.sent[e]| ==> s.sent[e][i].worker in t.sends && t.sends[s.sent[e][i].worker] == e
  }

  ghost predicate NoneInvented(t: Topology, s: State)
    requires Shaped(t, s)
  {
    forall e :: e in s.channels ==> SentByItsWorkers(t, s, e)
  }

  lemma SendInventsNone(t: Topology, s: State, w: nat)
    requires Owned(t, s) && NoneInvented(t, s) && w in s.workers && s.workers[w].Printing?
    requires s.workers[w].buf in s.store && Shaped(t, DoSend(s, w, t.sends[w]))
    ensures NoneInvented(t, DoSend(s, w, t.sends[w]))
  {
    var s' := DoSend(s, w, t.sends[w]);
    forall e | e in s'.channels
      ensures SentByItsWorkers(t, s', e)
    {
      assert SentByItsWorkers(t, s, e);
    }
  }

  lemma StepInventsNone(t: Topology, s: State, a: Action)
    requires Owned(t, s) && Enabled(t, s, a) && NoneInvented(t, s) && Shaped(t, Step(t, s, a))
    ensures NoneInvented(t, Step(t, s, a))
  {
    if a.Send? {
      if HasRoom(s, t.sends[a.w]) {
        SendInventsNone(t, s, a.w);
      } else {
        SameSent(t, s, DoDrop(s, a.w));
      }
    } else {
      OthersSendNothing(t, s, a);
      SameSent(t, s, Step(t, s, a));
    }
  }

  lemma SameSent(t: Topology, s: State, s': State)
    requires Shaped(t, s) && Shaped(t, s') && NoneInvented(t, s) && s'.sent == s.sent
    ensures NoneInvented(t, s')
  {
    forall e | e in s'.channels
      ensures SentByItsWorkers(t, s', e)
    {
      assert SentByItsWorkers(t, s, e);
    }
  }

  // ---------------------------------------------------------------- whole runs

  ghost predicate Initial(t: Topology, s: State) {
    && Shaped(t, s)
    && s.store == map[] && s.place == map[] && s.pool == multiset{}
    && (forall w :: w in s.workers ==> s.workers[w] == Free && s.printed[w] == [])
    && (forall c :: c in s.consumers ==> s.consumers[c] == Waiting)
    && (forall e :: e in s.channels ==> s.channels[e] == [] && s.sent[e] == [] && s.received[e] == 0)
  }

  /** s' is what some interleaving of steps leads to from s. */
  ghost predicate Runs(t: Topology, s: State, actions: seq<Action>, s': State)
    decreases |actions|
  {
    if actions == [] then s' == s
    else Shaped(t, s) && Enabled(t, s, actions[0]) && Runs(t, Step(t, s, actions[0]), actions[1..], s')
  }

  ghost predicate Good(t: Topology, s: State) {
    Owned(t, s) && InOrder(t, s) && NoneInvented(t, s)
  }

  lemma StepKeeps(t: Topology, s: State, a: Action)
    requires Good(t, s) && Enabled(t, s, a)
    ensures Good(t, Step(t, s, a))
  {
    StepKeepsOwned(t, s, a);
    StepKeepsOrder(t, s, a);
    StepInventsNone(t, s, a);
  }

  lemma {:induction false} RunKeeps(t: Topology, s: State, actions: seq<Action>, s': State)
    requires Good(t, s) && Runs(t, s, actions, s')
    ensures Good(t, s')
    decreases |actions|
  {
    if actions != [] {
      StepKeeps(t, s, actions[0]);
      RunKeeps(t, Step(t, s, actions[0]), actions[1..], s');
    }
  }

  lemma InitialIsGood(t: Topology, s: State)
    requires Initial(t, s)
    ensures Good(t, s)
  {
  }

  /** In every reachable state, for any numbers of workers, consumers and channels, buffers are owned one at a time,
      each channel holds in order exactly the records its workers sent and it has not yet handed on, and no worker's
      records change order. */
  lemma EveryRun(t: Topology, s: State, actions: seq<Action>, s': State)
    requires Initial(t, s) && Runs(t, s, actions, s')
    ensures Good(t, s')
  {
    InitialIsGood(t, s);
    RunKeeps(t, s, actions, s');
  }

  /** What ownership means for a buffer: it is pooled at most once, and then in nobody's hands; no two parties hold
      it. */
  lemma OneHolder(t: Topology, s: State, b: nat)
    requires Owned(t, s)
    ensures s.pool[b] <= 1
    ensures forall w :: w in s.workers && !s.workers[w].Free? && s.workers[w].buf == b ==>
              s.pool[b] == 0
              && (forall v :: v in s.workers && v != w && !s.workers[v].Free? ==> s.workers[v].buf != b)
              && (forall c :: c in s.consumers && !s.consumers[c].Waiting? ==> s.consumers[c].buf != b)
              && (forall e :: e in s.channels ==> b !in s.channels[e])
    ensures forall c :: c in s.consumers && !s.consumers[c].Waiting? && s.consumers[c].buf == b ==>
              s.pool[b] == 0
              && (forall d :: d in s.consumers && d != c && !s.consumers[d].Waiting? ==> s.consumers[d].buf != b)
              && (forall e :: e in s.channels ==> b !in s.channels[e])
  {
  }

  /** Whatever the others do meanwhile, a consumer reads the bytes of the record that was sent: what it has read and
      what is left in its buffer make up that record. */
  lemma ReadersAreUndisturbed(t: Topology, s: State, c: nat)
    requires Owned(t, s) && c in s.consumers && s.consumers[c].Reading?
    ensures s.consumers[c].buf in s.store
    ensures s.consumers[c].got + s.store[s.consumers[c].buf] == s.consumers[c].record
  {
  }

  /** The record a consumer starts reading is the oldest one sent and not yet received. */
  lemma ReceiveIsFifo(t: Topology, s: State, c: nat)
    requires Owned(t, s) && Enabled(t, s, Receive(c))
    ensures var e := t.receives[c];
            var s' := Step(t, s, Receive(c));
            && s.received[e] < |s.sent[e]| && s'.received[e] == s.received[e] + 1
            && s'.consumers[c].Reading? && s'.consumers[c].record == s.sent[e][s.received[e]].record
  {
  }

  /** A record is dropped exactly when its channel holds 1000 records, and its buffer does not come back to the pool;
      otherwise record and buffer are the channel's newest. */
  lemma DropsOnlyWhenFull(t: Topology, s: State, w: nat)
    requires Owned(t, s) && Enabled(t, s, Send(w))
    ensures var e, s' := t.sends[w], Step(t, s, Send(w));
            && |s.channels[e]| <= 1000 && s'.pool == s.pool
            && (if |s.channels[e]| == 1000 then s'.sent[e] == s.sent[e] && s'.channels[e] == s.channels[e]
                else s'.sent[e] == s.sent[e] + [Sent(w, s.workers[w].record)]
                     && s'.channels[e] == s.channels[e] + [s.workers[w].buf])
  {
    assert WorkerOwns(s, w) && ChannelOwns(s, t.sends[w]);
    var b := s.workers[w].buf;
    assert s.store[b] == s.workers[w].record;
  }

  lemma WorkersTake(t: Topology, s: State, a: Action)
    requires Owned(t, s) && Enabled(t, s, a) && !OfConsumer(a)
    ensures Step(t, s, a).pool
         == match a
            case Get(_, _, buf) => s.pool - multiset{buf}
            case Collect(buf) => s.pool - multiset{buf}
            case _ => s.pool
  {
  }

  lemma PutGives(t: Topology, s: State, a: Action)
    requires Owned(t, s) && Enabled(t, s, a) && a.Put?
    ensures Step(t, s, a).pool == s.pool + multiset{s.consumers[a.c].buf}
  {
  }

  lemma OthersGiveNothing(t: Topology, s: State, a: Action)
    requires Owned(t, s) && Enabled(t, s, a) && OfConsumer(a) && !a.Put?
    ensures Step(t, s, a).pool == s.pool
  {
  }

  /** Only Put gives a buffer back to the pool, the one that its consumer held; only Get and the pool's own collection
      take one out. */
  lemma PoolChanges(t: Topology, s: State, a: Action)
    requires Owned(t, s) && Enabled(t, s, a)
    ensures Step(t, s, a).pool
         == match a
            case Put(c) => s.pool + multiset{s.consumers[c].buf}
            case Get(_, _, buf) => s.pool - multiset{buf}
            case Collect(buf) => s.pool - multiset{buf}
            case _ => s.pool
  {
    if a.Put? {
      PutGives(t, s, a);
    } else if OfConsumer(a) {
      OthersGiveNothing(t, s, a);
    } else {
      WorkersTake(t, s, a);
    }
  }

  // ---------------------------------------------------------------- conservation

  function Dropped(printed: seq<Printed>): nat {
    if printed == [] then 0
    else Dropped(printed[..|printed| - 1]) + (if printed[|printed| - 1].kept then 0 else 1)
  }

  lemma {:induction false} KeptOrDropped(printed: seq<Printed>)
    ensures |Kept(printed)| + Dropped(printed) == |printed|
  {
    if printed != [] {
      KeptOrDropped(printed[..|printed| - 1]);
    }
  }

  /** `ws` lists each worker that sends on channel e, once. */
  ghost predicate SendersOf(t: Topology, e: string, ws: seq<nat>) {
    && (forall w :: w in ws <==> w in t.sends && t.sends[w] == e)
    && (forall i, j :: 0 <= i < j < |ws| ==> ws[i] != ws[j])
  }

  ghost function TotalPrinted(s: State, ws: seq<nat>): nat
    requires forall w :: w in ws ==> w in s.printed
  {
    if ws == [] then 0 else |s.printed[ws[0]]| + TotalPrinted(s, ws[1..])
  }

  ghost function TotalDropped(s: State, ws: seq<nat>): nat
    requires forall w :: w in ws ==> w in s.printed
  {
    if ws == [] then 0 else Dropped(s.printed[ws[0]]) + TotalDropped(s, ws[1..])
  }

  /** How many of the records sent came from the workers in `ws`. */
  ghost function CountFrom(sent: seq<Sent>, ws: seq<nat>): nat {
    if ws == [] then 0 else |FromWorker(sent, ws[0])| + CountFrom(sent, ws[1..])
  }

  lemma {:induction false} CountFromNobody(ws: seq<nat>)
    ensures CountFrom([], ws) == 0
  {
    if ws != [] {
      CountFromNobody(ws[1..]);
    }
  }

  /** One more record counts once, for the worker that sent it. */
  lemma {:induction false} CountFromSnoc(sent: seq<Sent>, x: Sent, ws: seq<nat>)
    requires forall i, j :: 0 <= i < j < |ws| ==> ws[i] != ws[j]
    ensures CountFrom(sent + [x], ws) == CountFrom(sent, ws) + (if x.worker in ws then 1 else 0)
  {
    if ws != [] {
      FromWorkerSnoc(sent, x, ws[0]);
      CountFromSnoc(sent, x, ws[1..]);
      assert ws == [ws[0]] + ws[1..];
    }
  }

  lemma {:induction false} CountFromAll(sent: seq<Sent>, ws: seq<nat>)
    requires forall i, j :: 0 <= i < j < |ws| ==> ws[i] != ws[j]
    requires forall i :: 0 <= i < |sent| ==> sent[i].worker in ws
    ensures CountFrom(sent, ws) == |sent|
  {
    if sent == [] {
      CountFromNobody(ws);
    } else {
      var before, last := sent[..|sent| - 1], sent[|sent| - 1];
      CountFromAll(before, ws);
      CountFromSnoc(before, last, ws);
      assert before + [last] == sent;
    }
  }

  /** Worker by worker: printed is sent or dropped. */
  lemma {:induction false} SumOverWorkers(t: Topology, s: State, e: string, ws: seq<nat>)
    requires Shaped(t, s) && InOrder(t, s) && forall w :: w in ws ==> w in t.sends && t.sends[w] == e
    requires e in s.sent
    ensures forall w :: w in ws ==> w in s.printed
    ensures TotalPrinted(s, ws) == CountFrom(s.sent[e], ws) + TotalDropped(s, ws)
  {
    if ws != [] {
      SumOverWorkers(t, s, e, ws[1..]);
      KeptOrDropped(s.printed[ws[0]]);
      assert ws[0] in s.workers;
    }
  }

  /** In every reachable state and for every channel: what its workers have printed is what its consumers have received,
      what is queued, and what was dropped. */
  lemma Conservation(t: Topology, s: State, actions: seq<Action>, s': State, e: string, ws: seq<nat>)
    requires Initial(t, s) && Runs(t, s, actions, s')
    requires e in s'.channels && SendersOf(t, e, ws)
    ensures Shaped(t, s') && forall w :: w in ws ==> w in s'.printed
    ensures TotalPrinted(s', ws) == s'.received[e] + |s'.channels[e]| + TotalDropped(s', ws)
  {
    EveryRun(t, s, actions, s');
    assert SentByItsWorkers(t, s', e);
    SumOverWorkers(t, s', e, ws);
    CountFromAll(s'.sent[e], ws);
    assert ChannelOwns(s', e);
  }
}
