/** The ClickHouse writer (ingestion/clickhouse/clickhouse.go: ingest): rows are taken from a channel into
    transactions that are committed by size, by time or at shutdown. What the database and the channels do is a
    script. */
module Ingest {
  import opened Text
  import opened Arith

  /** A prepared row, and whether executing its insert succeeds; it is counted either way. */
  datatype Row = Row(id: int, execOk: bool)

  /** What the select statement wakes up with. */
  datatype Wakeup = Fields(row: Row) | Tick | Done

  /** What the database does with one turn of the outer loop. */
  datatype TxOutcome = BeginFails | PrepareFails | Ready(commitOk: bool)

  /** How a transaction ended. */
  datatype Close =
    | NotPrepared  // begun, then forgotten
    | Full         // committed on reaching the batch size
    | Flushed      // committed by a tick
    | Idle         // forgotten after too many idle ticks
    | Shutdown     // committed because the context is done
    | Crashed      // division by a flush interval of zero
    | Open         // still running

  /** A transaction's history: ticks before its first row, its rows, its end, and whether a commit of it succeeds. */
  datatype Tx = Tx(idleTicks: nat, rows: seq<Row>, close: Close, commitOk: bool)

  // ---------------------------------------------------------------- what a history may look like

  /** Go's integer division truncates toward zero. */
  function GoDiv(a: int, b: int): int
    requires b != 0
  {
    if (a >= 0) == (b > 0) then (if b > 0 then a / b else (-a) / (-b)) else -(if b > 0 then (-a) / b else a / (-b))
  }

  /** The idle ticks after which a transaction is replaced. */
  function IdleLimit(flushInterval: int): (n: nat)
    requires flushInterval != 0
    ensures n >= 1
  {
    var n := GoDiv(300, flushInterval) - 1;
    if n >= 1 then n else 1
  }

  function MaxRows(batchSize: int): (n: nat)
    ensures n >= 1
  {
    if batchSize >= 1 then batchSize else 1
  }

  /** Still waiting: fewer rows than a batch, and if there are none, fewer ticks than the limit. */
  predicate Running(tx: Tx, batchSize: int, flushInterval: int) {
    && |tx.rows| < MaxRows(batchSize)
    && (tx.idleTicks > 0 ==> flushInterval != 0)
    && (flushInterval != 0 ==> tx.idleTicks < IdleLimit(flushInterval))
  }

  /** The only histories there are. */
  predicate Possible(tx: Tx, batchSize: int, flushInterval: int) {
    match tx.close
    case NotPrepared => tx.idleTicks == 0 && tx.rows == []
    case Full =>
      |tx.rows| == MaxRows(batchSize) && Running(tx.(rows := []), batchSize, flushInterval)
    case Flushed => tx.rows != [] && Running(tx, batchSize, flushInterval)
    case Idle => tx.rows == [] && flushInterval != 0 && tx.idleTicks == IdleLimit(flushInterval)
    case Shutdown => Running(tx, batchSize, flushInterval)
    case Crashed => tx.rows == [] && flushInterval == 0 && tx.idleTicks == 1
    case Open => Running(tx, batchSize, flushInterval)
  }

  function Ticks(n: nat): seq<Wakeup> {
    seq(n, _ => Tick)
  }

  function AsWakeups(rows: seq<Row>): seq<Wakeup> {
    seq(|rows|, i requires 0 <= i < |rows| => Fields(rows[i]))
  }

  /** What the select statement delivered during a transaction. */
  function Delivered(tx: Tx): seq<Wakeup> {
    Ticks(tx.idleTicks) + AsWakeups(tx.rows) + Last(tx.close)
  }

  function Last(close: Close): seq<Wakeup> {
    if close.Flushed? then [Tick] else if close.Shutdown? then [Done] else []
  }

  function DeliveredAll(log: seq<Tx>): seq<Wakeup> {
    if log == [] then [] else DeliveredAll(log[..|log| - 1]) + Delivered(log[|log| - 1])
  }

  function RowsOf(log: seq<Tx>): seq<Row> {
    if log == [] then [] else RowsOf(log[..|log| - 1]) + log[|log| - 1].rows
  }

  function RowsIn(wakeups: seq<Wakeup>): seq<Row> {
    if wakeups == [] then []
    else
      var w := wakeups[|wakeups| - 1];
      RowsIn(wakeups[..|wakeups| - 1]) + (if w.Fields? then [w.row] else [])
  }

  ghost predicate AllPossible(log: seq<Tx>, batchSize: int, flushInterval: int) {
    forall i :: 0 <= i < |log| ==> Possible(log[i], batchSize, flushInterval)
  }

  /** Only the last transaction can be open, crashed or shut down. */
  ghost predicate OnlyLastEnds(log: seq<Tx>) {
    forall i :: 0 <= i < |log| - 1 ==> !log[i].close.Open? && !log[i].close.Crashed? && !log[i].close.Shutdown?
  }

  // ---------------------------------------------------------------- the loop

  /** The transaction is a possible one from its first wakeup to its last, or still open when no more come. */
  ghost predicate Collected(tx: Tx, wakeups: seq<Wakeup>, start: nat, n: nat, batchSize: int, flushInterval: int)
    requires start <= n <= |wakeups|
  {
    && wakeups[start..n] == Delivered(tx) && Possible(tx, batchSize, flushInterval)
    && !tx.close.NotPrepared? && (tx.close.Open? ==> n == |wakeups|)
  }

  class Ingester {
    const batchSize: int
    const flushInterval: int
    var counter: nat
    var timeoutCounter: nat
    var log: seq<Tx>  // every transaction begun so far
    var backoffs: nat // how often backoff.Next was called

    constructor (batchSize: int, flushInterval: int)
      ensures this.batchSize == batchSize && this.flushInterval == flushInterval && log == [] && backoffs == 0
    {
      this.batchSize, this.flushInterval := batchSize, flushInterval;
      counter, timeoutCounter, log, backoffs := 0, 0, [], 0;
    }

    /** The inner loop: from a prepared statement to the end of its transaction. */
    method Collect(wakeups: seq<Wakeup>, start: nat, commitOk: bool) returns (tx: Tx, n: nat)
      requires start <= |wakeups|
      modifies `counter, `timeoutCounter
      ensures start <= n <= |wakeups| && tx.commitOk == commitOk
      ensures Collected(tx, wakeups, start, n, batchSize, flushInterval) && SizedRight(tx, batchSize)
    {
      n := start;
      counter := 0;
      timeoutCounter := 0;
      var rows: seq<Row> := [];
      while n < |wakeups|
        invariant start <= n <= |wakeups| && counter == |rows|
        invariant wakeups[start..n] == Ticks(timeoutCounter) + AsWakeups(rows)
        invariant Running(Tx(timeoutCounter, rows, Open, commitOk), batchSize, flushInterval)
      {
        DeliveredNext(timeoutCounter, rows, wakeups, start, n);
        n := n + 1;
        match wakeups[n - 1] {
        case Fields(row) =>
          rows := rows + [row];
          counter := counter + 1;
          if counter >= batchSize {
            return Tx(timeoutCounter, rows, Full, commitOk), n;
          }
        case Tick =>
          if counter > 0 {
            return Tx(timeoutCounter, rows, Flushed, commitOk), n;
          }
          timeoutCounter := timeoutCounter + 1;
          if flushInterval == 0 {
            return Tx(timeoutCounter, rows, Crashed, commitOk), n;
          }
          if timeoutCounter >= GoDiv(300, flushInterval) - 1 {
            return Tx(timeoutCounter, rows, Idle, commitOk), n;
          }
        case Done =>
          return Tx(timeoutCounter, rows, Shutdown, commitOk), n;
        }
      }
      return Tx(timeoutCounter, rows, Open, commitOk), n;
    }

    /** One turn of the outer loop: at most one transaction is begun. */
    method Attempt(outcome: TxOutcome, wakeups: seq<Wakeup>, start: nat) returns (n: nat)
      requires start <= |wakeups|
      modifies this
      ensures start <= n <= |wakeups|
      ensures outcome.BeginFails? ==> n == start && log == old(log)
      ensures outcome.PrepareFails? ==> n == start && log == old(log) + [Tx(0, [], NotPrepared, false)]
      ensures outcome.Ready? ==>
                exists tx ::
                  log == old(log) + [tx] && tx.commitOk == outcome.commitOk
                             && Collected(tx, wakeups, start, n, batchSize, flushInterval)
                             && SizedRight(tx, batchSize) && TickedRight(tx, flushInterval)
      ensures backoffs == old(backoffs) + (if outcome.Ready? then 0 else 1)
    {
      n := start;
      match outcome
      case BeginFails =>
        backoffs := backoffs + 1;
      case PrepareFails =>
        log := log + [Tx(0, [], NotPrepared, false)];
        backoffs := backoffs + 1;
      case Ready(commitOk) =>
        var tx;
        tx, n := Collect(wakeups, n, commitOk);
        TicksArePossible(tx, batchSize, flushInterval);
        log := log + [tx];
    }

    /** Another transaction begun, or not: all is accounted for as before. */
    method Turn(txs: seq<TxOutcome>, t: nat, wakeups: seq<Wakeup>, start: nat) returns (n: nat)
      requires t < |txs| && start <= |wakeups| && !Ended(log)
      requires Accounted(log, wakeups, start, batchSize, flushInterval)
      requires Follows(log, txs[..t]) && backoffs == Failures(txs[..t])
      modifies this
      ensures n <= |wakeups| && Accounted(log, wakeups, n, batchSize, flushInterval)
      ensures Follows(log, txs[..t + 1]) && backoffs == Failures(txs[..t + 1])
    {
      ghost var before := log;
      n := Attempt(txs[t], wakeups, start);
      if |log| > |before| {
        Logged(before, log[|before|], wakeups, start, n, batchSize, flushInterval);
      }
      FollowsNext(before, log, txs, t);
    }

    /** Runs until the script of the database or of the channels is used up, or the context is done, or the program
        crashes; `t` and `n` are how much of each script was consumed. */
    method Run(txs: seq<TxOutcome>, wakeups: seq<Wakeup>) returns (t: nat, n: nat)
      requires log == [] && backoffs == 0
      modifies this
      ensures t <= |txs| && n <= |wakeups|
      ensures Accounted(log, wakeups, n, batchSize, flushInterval)
      ensures Follows(log, txs[..t]) && backoffs == Failures(txs[..t])
      ensures backoffs == |set k | 0 <= k < t && !txs[k].Ready?|
      ensures forall i :: 0 <= i < |log| ==> SizedRight(log[i], batchSize) && TickedRight(log[i], flushInterval)
      ensures t == |txs| || Ended(log)
    {
      t, n := 0, 0;
      while t < |txs| && !Ended(log)
        invariant t <= |txs| && n <= |wakeups|
        invariant Accounted(log, wakeups, n, batchSize, flushInterval)
        invariant Follows(log, txs[..t]) && backoffs == Failures(txs[..t])
        decreases |txs| - t
      {
        n := Turn(txs, t, wakeups, n);
        t := t + 1;
      }
      FailuresAreCounted(txs, t);
      LogIsRight(log, batchSize, flushInterval);
    }
  }

  /** The log's histories are possible ones, and together they are the wakeups consumed. */
  ghost predicate Accounted(log: seq<Tx>, wakeups: seq<Wakeup>, n: nat, batchSize: int, flushInterval: int)
    requires n <= |wakeups|
  {
    && DeliveredAll(log) == wakeups[..n]
    && AllPossible(log, batchSize, flushInterval) && OnlyLastEnds(log)
    && (Ended(log) && log[|log| - 1].close.Open? ==> n == |wakeups|)
  }

  /** How often the database refused to begin or to prepare. */
  function Failures(txs: seq<TxOutcome>): nat {
    if txs == [] then 0 else Failures(txs[..|txs| - 1]) + (if txs[|txs| - 1].Ready? then 0 else 1)
  }

  lemma {:induction false} FailuresAreCounted(txs: seq<TxOutcome>, t: nat)
    requires t <= |txs|
    ensures Failures(txs[..t]) == |set k | 0 <= k < t && !txs[k].Ready?|
  {
    if t > 0 {
      FailuresAreCounted(txs, t - 1);
      assert txs[..t][..t - 1] == txs[..t - 1];
      var before := set k | 0 <= k < t - 1 && !txs[k].Ready?;
      assert (set k | 0 <= k < t && !txs[k].Ready?) == if txs[t - 1].Ready? then before else before + {t - 1};
    }
  }

  lemma LogIsRight(log: seq<Tx>, batchSize: int, flushInterval: int)
    requires AllPossible(log, batchSize, flushInterval)
    ensures forall i :: 0 <= i < |log| ==> SizedRight(log[i], batchSize) && TickedRight(log[i], flushInterval)
  {
    forall i | 0 <= i < |log|
      ensures SizedRight(log[i], batchSize) && TickedRight(log[i], flushInterval)
    {
      BatchSizes(log, i, batchSize, flushInterval);
      TicksArePossible(log[i], batchSize, flushInterval);
    }
  }

  /** One entry in the log for every transaction begun, prepared or not and committed or not as the database had it. */
  predicate Follows(log: seq<Tx>, txs: seq<TxOutcome>) {
    if txs == [] then log == []
    else
      match txs[|txs| - 1]
      case BeginFails => Follows(log, txs[..|txs| - 1])
      case PrepareFails =>
        log != [] && log[|log| - 1].close.NotPrepared? && Follows(log[..|log| - 1], txs[..|txs| - 1])
      case Ready(commitOk) =>
        log != [] && !log[|log| - 1].close.NotPrepared? && log[|log| - 1].commitOk == commitOk
        && Follows(log[..|log| - 1], txs[..|txs| - 1])
  }

  /** The run is over with the last transaction. */
  predicate Ended(log: seq<Tx>) {
    log != [] && log[|log| - 1].close in {Open, Crashed, Shutdown}
  }

  lemma FollowsNext(before: seq<Tx>, log: seq<Tx>, txs: seq<TxOutcome>, t: nat)
    requires t < |txs| && Follows(before, txs[..t])
    requires match txs[t]
             case BeginFails => log == before
             case PrepareFails => log == before + [Tx(0, [], NotPrepared, false)]
             case Ready(commitOk) =>
               |log| == |before| + 1 && log[..|before|] == before
               && log[|before|].commitOk == commitOk && !log[|before|].close.NotPrepared?
    ensures Follows(log, txs[..t + 1])
    ensures Failures(txs[..t + 1]) == Failures(txs[..t]) + (if txs[t].Ready? then 0 else 1)
  {
    assert txs[..t + 1][..t] == txs[..t];
    if txs[t].PrepareFails? {
      assert log[..|log| - 1] == before;
    }
  }

  /** How a history grows by one wakeup. */
  lemma DeliveredNext(ticks: nat, rows: seq<Row>, wakeups: seq<Wakeup>, start: nat, n: nat)
    requires start <= n < |wakeups|
    requires wakeups[start..n] == Ticks(ticks) + AsWakeups(rows)
    ensures match wakeups[n]
            case Fields(row) => wakeups[start..n + 1] == Ticks(ticks) + AsWakeups(rows + [row])
            case Tick => wakeups[start..n + 1] == Ticks(ticks) + AsWakeups(rows) + [Tick]
                         && (rows == [] ==> wakeups[start..n + 1] == Ticks(ticks + 1) + AsWakeups(rows))
            case Done => wakeups[start..n + 1] == Ticks(ticks) + AsWakeups(rows) + [Done]
  {
    var before, w := wakeups[start..n], wakeups[n];
    assert wakeups[start..n + 1] == before + [w];
    if w.Fields? {
      assert AsWakeups(rows + [w.row]) == AsWakeups(rows) + [w];
    } else if w.Tick? && rows == [] {
      assert Ticks(ticks + 1) == Ticks(ticks) + [Tick];
    }
  }

  /** How the log grows by one transaction. */
  lemma Logged(log: seq<Tx>, tx: Tx, wakeups: seq<Wakeup>, start: nat, n: nat, batchSize: int, flushInterval: int)
    requires start <= n <= |wakeups|
    requires Accounted(log, wakeups, start, batchSize, flushInterval) && !Ended(log)
    requires Delivered(tx) == wakeups[start..n] && Possible(tx, batchSize, flushInterval)
    requires tx.close.Open? ==> n == |wakeups|
    ensures Accounted(log + [tx], wakeups, n, batchSize, flushInterval)
  {
  }

  // ---------------------------------------------------------------- what follows for any run

  predicate Committed(tx: Tx) {
    tx.close.Full? || tx.close.Flushed? || tx.close.Shutdown?
  }

  /** The rows of the batches handed to Commit, in order. */
  function CommittedRows(log: seq<Tx>): seq<Row> {
    if log == [] then []
    else CommittedRows(log[..|log| - 1]) + (if Committed(log[|log| - 1]) then log[|log| - 1].rows else [])
  }

  function OpenRows(log: seq<Tx>): seq<Row> {
    if log != [] && log[|log| - 1].close.Open? then log[|log| - 1].rows else []
  }

  lemma {:induction false} RowsInConcat(a: seq<Wakeup>, b: seq<Wakeup>)
    ensures RowsIn(a + b) == RowsIn(a) + RowsIn(b)
  {
    if b == [] {
      assert a + b == a;
      assert RowsIn(a) + [] == RowsIn(a);
    } else {
      var b' := b[..|b| - 1];
      assert (a + b)[..|a + b| - 1] == a + b';
      RowsInConcat(a, b');
      ConcatAssoc(RowsIn(a), RowsIn(b'), if b[|b| - 1].Fields? then [b[|b| - 1].row] else []);
    }
  }

  lemma {:induction false} RowsInRows(rows: seq<Row>)
    ensures RowsIn(AsWakeups(rows)) == rows
  {
    if rows != [] {
      var r := rows[..|rows| - 1];
      assert AsWakeups(rows)[..|rows| - 1] == AsWakeups(r);
      RowsInRows(r);
    }
  }

  lemma {:induction false} RowsInTicks(n: nat)
    ensures RowsIn(Ticks(n)) == []
  {
    if n > 0 {
      assert Ticks(n)[..n - 1] == Ticks(n - 1);
      RowsInTicks(n - 1);
    }
  }

  lemma NoRowsLast(close: Close)
    ensures RowsIn(Last(close)) == []
  {
  }

  lemma RowsDelivered(tx: Tx)
    ensures RowsIn(Delivered(tx)) == tx.rows
  {
    RowsInTicks(tx.idleTicks);
    RowsInRows(tx.rows);
    NoRowsLast(tx.close);
    RowsInConcat(Ticks(tx.idleTicks), AsWakeups(tx.rows));
    RowsInConcat(Ticks(tx.idleTicks) + AsWakeups(tx.rows), Last(tx.close));
    NothingAround(tx.rows);
  }

  lemma NothingAround<T>(s: seq<T>)
    ensures [] + s + [] == s && [] + s == s && s + [] == s
  {
  }

  /** The rows taken from the channel, in order, are those of the batches handed to Commit, then those of the open
      batch: no abandoned transaction held any. */
  lemma {:induction false} RowsAreConserved(log: seq<Tx>, batchSize: int, flushInterval: int)
    requires AllPossible(log, batchSize, flushInterval) && OnlyLastEnds(log)
    ensures RowsIn(DeliveredAll(log)) == CommittedRows(log) + OpenRows(log)
  {
    if log != [] {
      var before, tx := log[..|log| - 1], log[|log| - 1];
      RowsAreConserved(before, batchSize, flushInterval);
      RowsInConcat(DeliveredAll(before), Delivered(tx));
      RowsDelivered(tx);
      assert OpenRows(before) == [];
      NothingAround(CommittedRows(before));
      NothingAround(CommittedRows(log));
      BatchSizes(log, |log| - 1, batchSize, flushInterval);
    }
  }

  /** A full batch has exactly the batch size of rows, or one if that is below one; one that a tick flushes has at
      least one row and, like one that a shutdown commits or that is still open, fewer than a full batch. Nothing else
      has rows. */
  lemma BatchSizes(log: seq<Tx>, i: nat, batchSize: int, flushInterval: int)
    requires AllPossible(log, batchSize, flushInterval) && i < |log|
    ensures SizedRight(log[i], batchSize)
  {
  }

  /** A transaction is forgotten after exactly the idle ticks of IdleTime, and no other sees as many; an interval of
      zero crashes the loop at the first. */
  predicate TickedRight(tx: Tx, flushInterval: int) {
    if flushInterval == 0 then tx.idleTicks == (if tx.close.Crashed? then 1 else 0) && !tx.close.Idle?
    else
      var limit := if 1 <= flushInterval <= 100 then 300 / flushInterval - 1 else 1;
      (if tx.close.Idle? then tx.idleTicks == limit else tx.idleTicks < limit) && !tx.close.Crashed?
  }

  lemma TicksArePossible(tx: Tx, batchSize: int, flushInterval: int)
    requires Possible(tx, batchSize, flushInterval)
    ensures TickedRight(tx, flushInterval)
  {
    if flushInterval != 0 {
      IdleTime(flushInterval);
    }
  }

  predicate SizedRight(tx: Tx, batchSize: int) {
    match tx.close
    case Full => |tx.rows| == if batchSize < 1 then 1 else batchSize
    case Flushed => 1 <= |tx.rows| <= batchSize - 1
    case Shutdown => |tx.rows| == 0 || |tx.rows| <= batchSize - 1
    case Open => |tx.rows| == 0 || |tx.rows| <= batchSize - 1
    case _ => tx.rows == []
  }

  /** No transaction with rows survives a tick: a tick after a row is the last thing a transaction sees, and flushes
      it. */
  lemma TickFlushes(tx: Tx, i: nat, j: nat)
    requires i < j < |Delivered(tx)|
    requires Delivered(tx)[i].Fields? && Delivered(tx)[j].Tick?
    ensures j == |Delivered(tx)| - 1 && tx.close.Flushed?
  {
  }

  /** How many ticks an idle transaction is kept, for every interval but zero, and a nominal bound on that in
      seconds. */
  lemma IdleTime(flushInterval: int)
    requires flushInterval != 0
    ensures IdleLimit(flushInterval) == if 1 <= flushInterval <= 100 then 300 / flushInterval - 1 else 1
    ensures flushInterval >= 1 ==>
              IdleLimit(flushInterval) * flushInterval
              <= if flushInterval > 300 - flushInterval then flushInterval else 300 - flushInterval
  {
  }

  function CountIdle(log: seq<Tx>): nat {
    if log == [] then 0 else CountIdle(log[..|log| - 1]) + (if log[|log| - 1].close.Idle? then 1 else 0)
  }

  /** A history of ticks only is that of an idle transaction, or of one still waiting. */
  lemma RowsAndEndsShow(tx: Tx)
    ensures tx.rows != [] ==> exists i :: 0 <= i < |Delivered(tx)| && Delivered(tx)[i].Fields?
    ensures tx.close.Shutdown? ==> exists i :: 0 <= i < |Delivered(tx)| && Delivered(tx)[i].Done?
  {
    var d := Delivered(tx);
    if tx.rows != [] {
      assert d[tx.idleTicks] == Fields(tx.rows[0]);
    }
    if tx.close.Shutdown? {
      assert d[|d| - 1] == Done;
    }
  }

  lemma OnlyTicks(tx: Tx, batchSize: int, flushInterval: int)
    requires Possible(tx, batchSize, flushInterval) && flushInterval != 0
    requires forall i :: 0 <= i < |Delivered(tx)| ==> Delivered(tx)[i].Tick?
    ensures tx.rows == [] && |Delivered(tx)| == tx.idleTicks
    ensures tx.close.NotPrepared? || tx.close.Idle? || tx.close.Open?
    ensures tx.close.NotPrepared? ==> tx.idleTicks == 0
    ensures tx.close.Idle? ==> tx.idleTicks == IdleLimit(flushInterval)
    ensures tx.close.Open? ==> tx.idleTicks < IdleLimit(flushInterval)
  {
    RowsAndEndsShow(tx);
  }

  lemma TicksSplit(a: seq<Wakeup>, b: seq<Wakeup>, ticks: nat)
    requires a + b == Ticks(ticks)
    ensures |b| <= ticks && a == Ticks(ticks - |b|)
    ensures forall i :: 0 <= i < |b| ==> b[i].Tick?
  {
    assert a == (a + b)[..|a|];
    assert forall i :: 0 <= i < |b| ==> b[i] == (a + b)[|a| + i];
  }

  /** While nothing arrives, one transaction is begun and forgotten, neither committed nor rolled back, every
      IdleLimit ticks. */
  lemma {:induction false} IdleTransactionsPileUp(log: seq<Tx>, ticks: nat, batchSize: int, flushInterval: int)
    requires AllPossible(log, batchSize, flushInterval) && OnlyLastEnds(log) && flushInterval != 0
    requires DeliveredAll(log) == Ticks(ticks)
    ensures var waiting := if Ended(log) then log[|log| - 1].idleTicks else 0;
            ticks == CountIdle(log) * IdleLimit(flushInterval) + waiting && waiting < IdleLimit(flushInterval)
  {
    if log != [] {
      var before, tx := log[..|log| - 1], log[|log| - 1];
      TicksSplit(DeliveredAll(before), Delivered(tx), ticks);
      IdleTransactionsPileUp(before, ticks - |Delivered(tx)|, batchSize, flushInterval);
      assert !Ended(before);
      OnlyTicks(tx, batchSize, flushInterval);
      OneMore(CountIdle(before), IdleLimit(flushInterval));
    }
  }
}
