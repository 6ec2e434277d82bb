/** The JSON loop of the kafka egress (egress/kafka/kafka.go: jsonLoop, addHostname), with buffers whose storage is used
    again for later records. The inner select hands a record to the producer or receives one of its errors, whichever is
    ready; what is ready, and when workers print, is a script. */
module Kafka {
  import opened Text
  import opened Json

  /** A pooled buffer: storage and how much of it is in use. */
  class Pooled {
    var bytes: array<char>
    var len: nat

    ghost predicate Valid()
      reads this
    {
      len <= bytes.Length
    }

    ghost function Contents(): string
      requires Valid()
      reads this, bytes
    {
      bytes[..len]
    }

    constructor ()
      ensures Valid() && fresh(bytes) && Contents() == ""
    {
      bytes, len := new char[0], 0;
    }

    /** A worker empties the buffer and prints a record into it, in the same storage if that is large enough. */
    method Reprint(text: string)
      requires Valid()
      modifies this, bytes
      ensures Valid() && Contents() == text
      ensures if |text| <= old(bytes.Length) then bytes == old(bytes) else fresh(bytes)
    {
      if bytes.Length < |text| {
        bytes := new char[|text|];
      }
      for i := 0 to |text|
        invariant |text| <= bytes.Length
        invariant bytes == old(bytes) || fresh(bytes)
        invariant old(bytes.Length) >= |text| ==> bytes == old(bytes)
        invariant old(bytes.Length) < |text| ==> fresh(bytes)
        invariant bytes[..i] == text[..i]
      {
        bytes[i] := text[i];
      }
      len := |text|;
    }
  }

  /** append: the bytes of s from place `at` on. */
  method Append(b: array<char>, at: nat, s: string)
    requires at + |s| <= b.Length
    modifies b
    ensures b[..at] == old(b[..at]) && b[at..at + |s|] == s
  {
    for i := 0 to |s|
      invariant b[..at] == old(b[..at]) && b[at..at + i] == s[..i]
    {
      b[at + i] := s[i];
    }
  }

  /** A fresh slice with the record's last byte turned into a comma and the tail behind it; on an empty buffer
      `b[len(b)-1]` panics. The buffer keeps its contents. */
  method AddHostname(buf: Pooled, jsonTail: string) returns (b: array<char>, panicked: bool)
    requires buf.Valid()
    ensures panicked == (buf.Contents() == "")
    ensures fresh(b) && (!panicked ==> b[..] == WithTail(buf.Contents(), jsonTail))
  {
    var n := buf.len;
    b := new char[n + |jsonTail|];
    if n == 0 {
      return b, true;
    }
    Append(b, 0, buf.bytes[..n]);
    b[n - 1] := ',';
    ghost var head := buf.Contents()[..n - 1] + ",";
    assert b[..n] == head;
    Append(b, n, jsonTail);
    assert b[..] == b[..n] + b[n..n + |jsonTail|];
    panicked := false;
  }

  // ---------------------------------------------------------------- the loop

  /** A worker prints a record into a buffer; the loop takes a buffer from the channel, and the inner select hands its
      record over or receives an error; the context ends. */
  datatype Happening = Print(place: nat, text: string) | Take(place: nat, handed: bool) | Done

  /** The records handed over, the producer's errors received, the buffers given back, and whether the loop panicked. */
  datatype Report = Report(handed: seq<string>, errors: nat, back: seq<nat>, panicked: bool)

  predicate InPool(script: seq<Happening>, n: nat) {
    forall k :: 0 <= k < |script| && !script[k].Done? ==> script[k].place < n
  }

  /** What the loop should do from the n-th event on, from what each buffer holds by then. */
  function Outcome(script: seq<Happening>, n: nat, contents: seq<string>): Report
    requires InPool(script, |contents|) && n <= |script|
    decreases |script| - n
  {
    if n == |script| then Report([], 0, [], false)
    else
      match script[n]
      case Done => Report([], 0, [], false)
      case Print(i, text) => Outcome(script, n + 1, contents[i := text])
      case Take(i, handed) =>
        if contents[i] == "" then Stopped()
        else
          var more := Outcome(script, n + 1, contents);
          if handed then more.(handed := [contents[i]] + more.handed, back := [i] + more.back)
          else more.(errors := more.errors + 1, back := [i] + more.back)
  }

  function Stopped(): Report {
    Report([], 0, [], true)
  }

  /** The buffers taken from the n-th event on, up to the context's end. */
  function Places(script: seq<Happening>, n: nat): seq<nat>
    requires n <= |script|
    decreases |script| - n
  {
    if n == |script| || script[n].Done? then []
    else (if script[n].Take? then [script[n].place] else []) + Places(script, n + 1)
  }

  /** What buffer `place` holds when event k comes, from what it held before event n. */
  function Held(script: seq<Happening>, n: nat, k: nat, place: nat, first: string): string
    requires n <= k <= |script|
    decreases k
  {
    if k == n then first
    else if script[k - 1].Print? && script[k - 1].place == place then script[k - 1].text
    else Held(script, n, k - 1, place, first)
  }

  /** The loop handles the events before s and stops there: at the end, at the context's end, or at an empty buffer. */
  ghost predicate StopsAt(script: seq<Happening>, n: nat, contents: seq<string>, s: nat)
    requires InPool(script, |contents|)
  {
    && n <= s <= |script|
    && (forall k :: n <= k < s ==>
          !script[k].Done? && (script[k].Take? ==>
            Held(script, n, k, script[k].place, contents[script[k].place]) != ""))
    && (s < |script| ==>
          !script[s].Print? && (script[s].Take? ==>
            Held(script, n, s, script[s].place, contents[script[s].place]) == ""))
  }

  /** How many of the events from n to k take a buffer and hand it over, or not. */
  function Rank(script: seq<Happening>, n: nat, k: nat, handed: bool): nat
    requires n <= k <= |script|
  {
    |set j | n <= j < k && script[j].Take? && script[j].handed == handed|
  }

  lemma {:induction false} HeldAfter(script: seq<Happening>, n: nat, k: nat, place: nat, first: string)
    requires n < k <= |script|
    ensures Held(script, n, k, place, first)
         == Held(script, n + 1, k, place,
                 if script[n].Print? && script[n].place == place then script[n].text else first)
    decreases k
  {
    if k > n + 1 {
      HeldAfter(script, n, k - 1, place, first);
    }
  }

  lemma RankOfNone(script: seq<Happening>, n: nat, handed: bool)
    requires n <= |script|
    ensures Rank(script, n, n, handed) == 0
  {
  }

  lemma RankAfter(script: seq<Happening>, n: nat, k: nat, handed: bool)
    requires n < k <= |script|
    ensures Rank(script, n, k, handed)
         == Rank(script, n + 1, k, handed) + (if script[n].Take? && script[n].handed == handed then 1 else 0)
  {
    var all := set j | n <= j < k && script[j].Take? && script[j].handed == handed;
    var later := set j | n + 1 <= j < k && script[j].Take? && script[j].handed == handed;
    assert all == if script[n].Take? && script[n].handed == handed then later + {n} else later;
  }

  /** The contents once event n has happened. */
  function Printed(script: seq<Happening>, n: nat, contents: seq<string>): seq<string>
    requires InPool(script, |contents|) && n < |script|
  {
    if script[n].Print? then contents[script[n].place := script[n].text] else contents
  }

  lemma StopsAfter(script: seq<Happening>, n: nat, contents: seq<string>, s: nat)
    requires InPool(script, |contents|) && n < s && StopsAt(script, n, contents, s)
    ensures StopsAt(script, n + 1, Printed(script, n, contents), s)
  {
    var next := Printed(script, n, contents);
    forall k | n + 1 <= k <= s && k < |script| && script[k].Take?
      ensures Held(script, n + 1, k, script[k].place, next[script[k].place])
           == Held(script, n, k, script[k].place, contents[script[k].place])
    {
      HeldAfter(script, n, k, script[k].place, contents[script[k].place]);
    }
  }

  /** The record that event k hands over is the one last printed into its buffer, and it is the one after those handed
      over before. */
  ghost predicate HandedAt(script: seq<Happening>, n: nat, contents: seq<string>, k: nat, handed: seq<string>)
    requires InPool(script, |contents|) && n <= k < |script| && script[k].Take?
  {
    var r := Rank(script, n, k, true);
    r < |handed| && handed[r] == Held(script, n, k, script[k].place, contents[script[k].place])
  }

  lemma HandedLater(script: seq<Happening>, n: nat, contents: seq<string>, k: nat, handed: seq<string>)
    requires InPool(script, |contents|) && n < k < |script| && script[k].Take?
    requires HandedAt(script, n + 1, Printed(script, n, contents), k, handed)
    ensures if script[n].Take? && script[n].handed then
              HandedAt(script, n, contents, k, [contents[script[n].place]] + handed)
            else HandedAt(script, n, contents, k, handed)
  {
    RankAfter(script, n, k, true);
    HeldAfter(script, n, k, script[k].place, contents[script[k].place]);
  }

  /** For any script: exactly the records taken before the loop stops are handed over or displaced as the inner select
      had it, each being what was last printed into its buffer, in order; and the loop panics if and only if it stops at
      an empty buffer. */
  lemma {:induction false} OutcomeExactly(script: seq<Happening>, n: nat, contents: seq<string>, s: nat)
    requires InPool(script, |contents|) && StopsAt(script, n, contents, s)
    ensures var r := Outcome(script, n, contents);
            && |r.handed| == Rank(script, n, s, true) && r.errors == Rank(script, n, s, false)
            && (r.panicked <==> s < |script| && script[s].Take?)
            && forall k :: n <= k < s && script[k].Take? && script[k].handed ==>
                 HandedAt(script, n, contents, k, r.handed)
    decreases s - n
  {
    if n < s {
      var next := Printed(script, n, contents);
      StopsAfter(script, n, contents, s);
      OutcomeExactly(script, n + 1, next, s);
      RankAfter(script, n, s, true);
      RankAfter(script, n, s, false);
      OutcomeStep(script, n, contents);
      AllHanded(script, n, contents, s, Outcome(script, n, contents).handed, Outcome(script, n + 1, next).handed);
    }
  }

  /** What event n adds to the outcome of the rest. */
  lemma OutcomeStep(script: seq<Happening>, n: nat, contents: seq<string>)
    requires InPool(script, |contents|) && n < |script| && !script[n].Done?
    requires script[n].Take? ==> contents[script[n].place] != ""
    ensures var r, more := Outcome(script, n, contents), Outcome(script, n + 1, Printed(script, n, contents));
            && r.panicked == more.panicked
            && r.handed == (if script[n].Take? && script[n].handed then [contents[script[n].place]] + more.handed
                            else more.handed)
            && r.errors == more.errors + (if script[n].Take? && !script[n].handed then 1 else 0)
  {
  }

  lemma AllHanded(script: seq<Happening>, n: nat, contents: seq<string>, s: nat, handed: seq<string>,
                  later: seq<string>)
    requires InPool(script, |contents|) && n < s <= |script|
    requires handed == if script[n].Take? && script[n].handed then [contents[script[n].place]] + later else later
    requires forall k :: n < k < s && script[k].Take? && script[k].handed ==>
               HandedAt(script, n + 1, Printed(script, n, contents), k, later)
    ensures forall k :: n <= k < s && script[k].Take? && script[k].handed ==> HandedAt(script, n, contents, k, handed)
  {
    forall k | n <= k < s && script[k].Take? && script[k].handed
      ensures HandedAt(script, n, contents, k, handed)
    {
      if k == n {
        RankOfNone(script, n, true);
      } else {
        HandedLater(script, n, contents, k, later);
      }
    }
  }

  /** Every script stops somewhere. */
  lemma {:induction false} Stops(script: seq<Happening>, n: nat, contents: seq<string>) returns (s: nat)
    requires InPool(script, |contents|) && n <= |script|
    ensures StopsAt(script, n, contents, s)
    decreases |script| - n
  {
    if n == |script| || script[n].Done? || (script[n].Take? && contents[script[n].place] == "") {
      s := n;
    } else {
      var next := Printed(script, n, contents);
      s := Stops(script, n + 1, next);
      forall k | n < k <= s && k < |script| && script[k].Take?
        ensures Held(script, n + 1, k, script[k].place, next[script[k].place])
             == Held(script, n, k, script[k].place, contents[script[k].place])
      {
        HeldAfter(script, n, k, script[k].place, contents[script[k].place]);
      }
    }
  }

  lemma OneBack(i: nat, back: seq<nat>, places: seq<nat>)
    requires back <= places
    ensures [i] + back <= [i] + places && ([i] + back == [i] + places <==> back == places)
  {
    assert ([i] + back)[1..] == back && ([i] + places)[1..] == places;
  }

  /** Every buffer taken is given back, once and in order, after its record was handed over or displaced; if and only if
      the loop panics on an empty buffer, that one and those after it are not. */
  lemma {:induction false} BuffersComeBack(script: seq<Happening>, n: nat, contents: seq<string>)
    requires InPool(script, |contents|) && n <= |script|
    ensures var r := Outcome(script, n, contents);
            && |r.handed| + r.errors == |r.back|
            && r.back <= Places(script, n)
            && (r.back == Places(script, n) <==> !r.panicked)
    decreases |script| - n
  {
    if n < |script| {
      match script[n]
      case Done =>
      case Print(i, text) =>
        BuffersComeBack(script, n + 1, contents[i := text]);
        assert [] + Places(script, n + 1) == Places(script, n + 1);
      case Take(i, handed) =>
        BuffersComeBack(script, n + 1, contents);
        OneBack(i, Outcome(script, n + 1, contents).back, Places(script, n + 1));
    }
  }

  /** No two buffers share storage; all of it is in `storage`. */
  ghost predicate Separate(pool: seq<Pooled>, storage: set<array<char>>)
    reads pool
  {
    && (forall i :: 0 <= i < |pool| ==> pool[i].Valid() && pool[i].bytes in storage)
    && forall i, j :: 0 <= i < j < |pool| ==> pool[i] != pool[j] && pool[i].bytes != pool[j].bytes
  }

  /** The buffers of the pool hold the texts. */
  ghost predicate Holding(pool: seq<Pooled>, storage: set<array<char>>, contents: seq<string>)
    requires Separate(pool, storage)
    reads pool, storage
  {
    |contents| == |pool| && forall i :: 0 <= i < |pool| ==> pool[i].Contents() == contents[i]
  }

  /** The messages hold the records with the tail, in storage of their own. */
  ghost predicate Carry(messages: seq<array<char>>, records: seq<string>, tail: string, pool: seq<Pooled>)
    reads pool, messages
  {
    && |messages| == |records|
    && (forall k :: 0 <= k < |records| ==> records[k] != "" && messages[k][..] == WithTail(records[k], tail))
    && forall k, i :: 0 <= k < |messages| && 0 <= i < |pool| ==> messages[k] != pool[i].bytes
  }

  /** What the loop has done, and then the rest. */
  function Before(handed: seq<string>, errors: nat, back: seq<nat>, rest: Report): Report {
    Report(handed + rest.handed, errors + rest.errors, back + rest.back, rest.panicked)
  }

  lemma BeforeNothing(r: Report)
    ensures Before([], 0, [], r) == r
  {
    assert [] + r.handed == r.handed && [] + r.back == r.back;
  }

  lemma OneTaken(handed: seq<string>, errors: nat, back: seq<nat>, script: seq<Happening>, n: nat,
                 contents: seq<string>)
    requires InPool(script, |contents|) && n < |script| && script[n].Take? && contents[script[n].place] != ""
    ensures var i, ok, more := script[n].place, script[n].handed, Outcome(script, n + 1, contents);
            Before(handed, errors, back, Outcome(script, n, contents))
            == Before(handed + (if ok then [contents[i]] else []), errors + (if ok then 0 else 1), back + [i], more)
  {
    var i, more := script[n].place, Outcome(script, n + 1, contents);
    ConcatAssoc(handed, [contents[i]], more.handed);
    ConcatAssoc(back, [i], more.back);
    assert handed + [] == handed;
  }

  method PrintInto(pool: seq<Pooled>, i: nat, text: string, tail: string, ghost storage: set<array<char>>,
                   ghost contents: seq<string>, ghost messages: seq<array<char>>, ghost handed: seq<string>)
    requires i < |pool| && Separate(pool, storage) && Holding(pool, storage, contents)
    requires Carry(messages, handed, tail, pool)
    modifies pool, storage
    ensures Carry(messages, handed, tail, pool)
    ensures var all := storage + {pool[i].bytes};
            && Separate(pool, all) && Holding(pool, all, contents[i := text])
            && (pool[i].bytes in storage || fresh(pool[i].bytes))
  {
    pool[i].Reprint(text);
  }

  /** The inner select: the message is made first, and dropped if an error of the producer comes before it. */
  method HandOver(pool: seq<Pooled>, i: nat, toProducer: bool, tail: string, ghost storage: set<array<char>>,
                  ghost contents: seq<string>, messages: seq<array<char>>, ghost handed: seq<string>)
    returns (more: seq<array<char>>, panicked: bool)
    requires i < |pool| && Separate(pool, storage) && Holding(pool, storage, contents)
    requires Carry(messages, handed, tail, pool)
    ensures panicked == (contents[i] == "")
    ensures !panicked ==> Carry(more, handed + (if toProducer then [contents[i]] else []), tail, pool)
    ensures panicked ==> more == messages
  {
    var message;
    message, panicked := AddHostname(pool[i], tail);
    more := if !panicked && toProducer then messages + [message] else messages;
    assert handed + [] == handed;
  }

  /** What the loop has so far: the messages, the errors, the buffers given back. */
  datatype Progress = Progress(messages: seq<array<char>>, errors: nat, back: seq<nat>, panicked: bool)

  /** One event: what was done before and what is still to come make up the same outcome. */
  method Turn(script: seq<Happening>, n: nat, pool: seq<Pooled>, tail: string, p: Progress,
              ghost storage: set<array<char>>, ghost contents: seq<string>, ghost handed: seq<string>)
    returns (q: Progress, ghost all: set<array<char>>, ghost after: seq<string>, ghost more: seq<string>)
    requires InPool(script, |pool|) && n < |script| && !script[n].Done? && !p.panicked
    requires Separate(pool, storage) && Holding(pool, storage, contents) && Carry(p.messages, handed, tail, pool)
    modifies pool, storage
    ensures Separate(pool, all) && Holding(pool, all, after) && Carry(q.messages, more, tail, pool)
    ensures forall a :: a in all ==> a in storage || fresh(a)
    ensures Before(handed, p.errors, p.back, Outcome(script, n, contents))
         == Before(more, q.errors, q.back, if q.panicked then Stopped() else Outcome(script, n + 1, after))
  {
    q, all, after, more := p, storage, contents, handed;
    match script[n]
    case Print(i, text) =>
      PrintInto(pool, i, text, tail, storage, contents, p.messages, handed);
      all, after := storage + {pool[i].bytes}, contents[i := text];
    case Take(i, toProducer) =>
      var messages, panicked := HandOver(pool, i, toProducer, tail, storage, contents, p.messages, handed);
      if panicked {
        q := p.(panicked := true);
      } else {
        OneTaken(handed, p.errors, p.back, script, n, contents);
        q := Progress(messages, p.errors + (if toProducer then 0 else 1), p.back + [i], false);
        more := handed + (if toProducer then [contents[i]] else []);
      }
  }

  /** Every record taken is handed over with the host name added, in order, or displaced by one producer error; its
      buffer is given back either way. However the buffers are printed into again, all messages handed over still hold
      their own records at the end. */
  method JsonLoop(script: seq<Happening>, pool: seq<Pooled>, hostname: string, ghost storage: set<array<char>>,
                  ghost contents: seq<string>)
    returns (p: Progress)
    requires InPool(script, |pool|) && Separate(pool, storage) && Holding(pool, storage, contents)
    modifies pool, storage
    ensures var r := Outcome(script, 0, contents);
            && Carry(p.messages, r.handed, JsonTail(hostname), pool)
            && p.errors == r.errors && p.back == r.back && p.panicked == r.panicked
  {
    var tail := JsonTail(hostname);
    ghost var all, held, handed, outcome := storage, contents, [], Outcome(script, 0, contents);
    BeforeNothing(outcome);
    p := Progress([], 0, [], false);
    var n := 0;
    while n < |script| && !script[n].Done? && !p.panicked
      invariant 0 <= n <= |script|
      invariant Separate(pool, all) && Holding(pool, all, held) && Carry(p.messages, handed, tail, pool)
      invariant forall a :: a in all ==> a in storage || fresh(a)
      invariant outcome == Before(handed, p.errors, p.back, if p.panicked then Stopped() else Outcome(script, n, held))
    {
      p, all, held, handed := Turn(script, n, pool, tail, p, all, held, handed);
      n := n + 1;
    }
  }
}
