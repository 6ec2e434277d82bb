/** The per-socket sampling counter of ebpf/template.go:127-146 on its own: a bounded hash, fed one socket at a time. */
module Counter {
  import opened Arith

  type Samples = map<nat, nat>

  const CAPACITY := 100000

  /** lookup_or_try_init, the comparison with the limit, increment and delete, on a hash of bounded size. */
  function SampleStep(limit: nat, samples: Samples, sock: nat): (bool, Samples) {
    if sock !in samples && |samples| >= CAPACITY then (false, samples)
    else
      var count := if sock in samples then samples[sock] else 0;
      if count < limit then (false, samples[sock := count + 1])
      else (true, samples - {sock})
  }

  /** With a limit of 0 the program has no sampling code at all. */
  function Step(limit: nat, samples: Samples, sock: nat): (bool, Samples) {
    if limit == 0 then (true, samples) else SampleStep(limit, samples, sock)
  }

  // ---------------------------------------------------------------- runs

  /** The hash after the first n sockets. */
  function After(limit: nat, socks: seq<nat>, n: nat): Samples
    requires n <= |socks|
  {
    if n == 0 then map[] else Step(limit, After(limit, socks, n - 1), socks[n - 1]).1
  }

  /** Socket number i is let through. */
  predicate Passes(limit: nat, socks: seq<nat>, i: nat)
    requires i < |socks|
  {
    Step(limit, After(limit, socks, i), socks[i]).0
  }

  function CountPassed(limit: nat, socks: seq<nat>, sock: nat, n: nat): nat
    requires n <= |socks|
  {
    if n == 0 then 0
    else CountPassed(limit, socks, sock, n - 1) + (if socks[n - 1] == sock && Passes(limit, socks, n - 1) then 1 else 0)
  }

  function CountOf(socks: seq<nat>, sock: nat, n: nat): nat
    requires n <= |socks|
  {
    if n == 0 then 0 else CountOf(socks, sock, n - 1) + (if socks[n - 1] == sock then 1 else 0)
  }

  /** The socket is untracked and the hash has no room for it. */
  predicate Refuses(limit: nat, samples: Samples, sock: nat) {
    limit > 0 && sock !in samples && |samples| >= CAPACITY
  }

  function CountRefused(limit: nat, socks: seq<nat>, sock: nat, n: nat): nat
    requires n <= |socks|
  {
    if n == 0 then 0
    else
      CountRefused(limit, socks, sock, n - 1)
      + (if socks[n - 1] == sock && Refuses(limit, After(limit, socks, n - 1), sock) then 1 else 0)
  }

  function Pending(samples: Samples, sock: nat): nat {
    if sock in samples then samples[sock] else 0
  }

  function SocksBelow(socks: seq<nat>, n: nat): set<nat>
    requires n <= |socks|
  {
    set i | 0 <= i < n :: socks[i]
  }

  // ---------------------------------------------------------------- what every step keeps

  /** The hash is within its capacity, holds counts between 1 and the limit, and only sockets that were seen. */
  ghost predicate Tidy(limit: nat, samples: Samples, seen: set<nat>) {
    && |samples| <= CAPACITY && samples.Keys <= seen
    && forall k :: k in samples ==> 1 <= samples[k] <= limit
  }

  lemma SubsetIsSmaller<T>(a: set<T>, b: set<T>)
    requires a <= b
    ensures |a| <= |b|
  {
    assert b == a + (b - a);
  }

  lemma StepIsTidy(limit: nat, samples: Samples, sock: nat, seen: set<nat>)
    requires Tidy(limit, samples, seen)
    ensures Tidy(limit, Step(limit, samples, sock).1, seen + {sock})
    ensures |Step(limit, samples, sock).1| <= 100000
  {
  }

  lemma {:induction false} HashIsTidy(limit: nat, socks: seq<nat>, n: nat)
    requires n <= |socks|
    ensures Tidy(limit, After(limit, socks, n), SocksBelow(socks, n))
  {
    if n > 0 {
      HashIsTidy(limit, socks, n - 1);
      StepIsTidy(limit, After(limit, socks, n - 1), socks[n - 1], SocksBelow(socks, n - 1));
      assert SocksBelow(socks, n) == SocksBelow(socks, n - 1) + {socks[n - 1]};
    }
  }

  /** What one step does to the account of any socket. */
  lemma StepConserves(limit: nat, samples: Samples, sock: nat, k: nat, seen: set<nat>, go: bool, samples': Samples)
    requires Tidy(limit, samples, seen)
    requires (go, samples') == Step(limit, samples, sock)
    ensures sock != k ==> Pending(samples', k) == Pending(samples, k)
    ensures sock == k && go ==> !Refuses(limit, samples, k) && Pending(samples', k) + limit == Pending(samples, k)
    ensures sock == k && !go ==>
              Pending(samples', k) == Pending(samples, k) + (if Refuses(limit, samples, k) then 0 else 1)
  {
  }

  /** The occurrences that passages stand for: the one that passes and the `limit` before it. */
  function Covered(limit: nat, socks: seq<nat>, sock: nat, n: nat): nat
    requires n <= |socks|
  {
    if n == 0 then 0
    else
      Covered(limit, socks, sock, n - 1)
      + (if socks[n - 1] == sock && Passes(limit, socks, n - 1) then limit + 1 else 0)
  }

  lemma OnePassage(limit: nat, socks: seq<nat>, sock: nat, k: nat)
    requires k < |socks|
    ensures var passes := socks[k] == sock && Passes(limit, socks, k);
            && CountPassed(limit, socks, sock, k + 1) == CountPassed(limit, socks, sock, k) + (if passes then 1 else 0)
            && Covered(limit, socks, sock, k + 1) == Covered(limit, socks, sock, k) + (if passes then limit + 1 else 0)
  {
  }

  lemma {:induction false} CoveredIsProduct(limit: nat, socks: seq<nat>, sock: nat, n: nat)
    requires n <= |socks|
    ensures Covered(limit, socks, sock, n) == CountPassed(limit, socks, sock, n) * (limit + 1)
  {
    if n > 0 {
      var k := n - 1;
      CoveredIsProduct(limit, socks, sock, k);
      OnePassage(limit, socks, sock, k);
      var passes := socks[k] == sock && Passes(limit, socks, k);
      ProductStep(CountPassed(limit, socks, sock, k), CountPassed(limit, socks, sock, n), limit + 1, passes);
    }
  }

  lemma ProductStep(x: nat, y: nat, k: nat, more: bool)
    requires y == x + (if more then 1 else 0)
    ensures y * k == x * k + (if more then k else 0)
  {
  }

  /** One step of each count. */
  lemma CountsStep(limit: nat, socks: seq<nat>, sock: nat, n: nat)
    requires n < |socks|
    ensures Covered(limit, socks, sock, n + 1) == Covered(limit, socks, sock, n)
          + (if socks[n] == sock && Passes(limit, socks, n) then limit + 1 else 0)
    ensures CountRefused(limit, socks, sock, n + 1) == CountRefused(limit, socks, sock, n)
          + (if socks[n] == sock && Refuses(limit, After(limit, socks, n), sock) then 1 else 0)
    ensures CountOf(socks, sock, n + 1) == CountOf(socks, sock, n) + (if socks[n] == sock then 1 else 0)
    ensures (Passes(limit, socks, n), After(limit, socks, n + 1)) == Step(limit, After(limit, socks, n), socks[n])
  {
  }

  ghost predicate Accounted(limit: nat, socks: seq<nat>, sock: nat, n: nat)
    requires n <= |socks|
  {
    Covered(limit, socks, sock, n) + Pending(After(limit, socks, n), sock) + CountRefused(limit, socks, sock, n)
      == CountOf(socks, sock, n)
  }

  lemma AccountedStep(limit: nat, socks: seq<nat>, sock: nat, n: nat)
    requires n < |socks| && Accounted(limit, socks, sock, n)
    ensures Accounted(limit, socks, sock, n + 1)
  {
    CountsStep(limit, socks, sock, n);
    HashIsTidy(limit, socks, n);
    StepConserves(limit, After(limit, socks, n), socks[n], sock, SocksBelow(socks, n),
                  Passes(limit, socks, n), After(limit, socks, n + 1));
  }

  lemma NothingYet(limit: nat, socks: seq<nat>, sock: nat)
    ensures Accounted(limit, socks, sock, 0)
  {
    assert After(limit, socks, 0) == map[];
  }

  /** Every time a socket came up is accounted for: in a passage, in its count, or refused by a full hash. */
  lemma {:induction false} CountingConserves(limit: nat, socks: seq<nat>, sock: nat, n: nat)
    requires n <= |socks|
    ensures Accounted(limit, socks, sock, n)
  {
    if n > 0 {
      var k := n - 1;
      CountingConserves(limit, socks, sock, k);
      AccountedStep(limit, socks, sock, k);
    } else {
      NothingYet(limit, socks, sock);
    }
  }

  /** If no more sockets come up than the hash can hold, none is ever refused. */
  lemma {:induction false} RoomForAll(limit: nat, socks: seq<nat>, sock: nat, n: nat)
    requires n <= |socks| && |SocksBelow(socks, n)| <= CAPACITY
    ensures CountRefused(limit, socks, sock, n) == 0
  {
    if n > 0 {
      var all := SocksBelow(socks, n);
      assert all == SocksBelow(socks, n - 1) + {socks[n - 1]};
      SubsetIsSmaller(SocksBelow(socks, n - 1), all);
      RoomForAll(limit, socks, sock, n - 1);
      HashIsTidy(limit, socks, n - 1);
      RoomForOne(limit, After(limit, socks, n - 1), socks[n - 1], SocksBelow(socks, n - 1));
    }
  }

  lemma RoomForOne(limit: nat, samples: Samples, sock: nat, seen: set<nat>)
    requires Tidy(limit, samples, seen) && |seen + {sock}| <= CAPACITY
    ensures !Refuses(limit, samples, sock)
  {
    if sock !in samples {
      SubsetIsSmaller(samples.Keys + {sock}, seen + {sock});
      assert |samples.Keys + {sock}| == |samples.Keys| + 1;
      assert |samples| == |samples.Keys|;
    }
  }

  lemma Quotient(q: nat, r: nat, k: nat, n: nat)
    requires n == q * k + r && r < k
    ensures q == n / k
  {
    var p := n / k;
    assert n == p * k + n % k;
    assert (q - p) * k == n % k - r;
    if q >= p + 1 {
      MultiplyMonotone(1, q - p, k);
    }
    if q <= p - 1 {
      MultiplyMonotone(q - p, -1, k);
    }
  }

  /** floor(n / (limit + 1)) */
  function Share(limit: nat, n: nat): nat {
    n / (limit + 1)
  }

  lemma ShareIsFloor(limit: nat, offered: nat, refused: nat, passed: nat)
    requires refused <= offered && passed == Share(limit, offered - refused)
    ensures passed == (offered - refused) / (limit + 1)
  {
  }

  lemma PendingIsSmall(limit: nat, socks: seq<nat>, sock: nat, n: nat)
    requires n <= |socks|
    ensures Pending(After(limit, socks, n), sock) <= limit
  {
    HashIsTidy(limit, socks, n);
  }

  lemma PassedIsShare(limit: nat, passed: nat, covered: nat, pending: nat, refused: nat, all: nat)
    requires covered + pending + refused == all && pending <= limit && covered == passed * (limit + 1)
    ensures refused <= all && passed == Share(limit, all - refused)
  {
    Quotient(passed, pending, limit + 1, all - refused);
  }

  lemma ShareOfCovered(limit: nat, socks: seq<nat>, sock: nat, n: nat, pending: nat, refused: nat, all: nat)
    requires n <= |socks| && Covered(limit, socks, sock, n) + pending + refused == all && pending <= limit
    ensures refused <= all && CountPassed(limit, socks, sock, n) == Share(limit, all - refused)
  {
    CoveredIsProduct(limit, socks, sock, n);
    PassedIsShare(limit, CountPassed(limit, socks, sock, n), Covered(limit, socks, sock, n), pending, refused, all);
  }

  /** What is not covered or refused is pending, and that is less than another passage stands for. */
  lemma LessThanAPassage(limit: nat, socks: seq<nat>, sock: nat, n: nat) returns (pending: nat)
    requires n <= |socks|
    ensures pending <= limit
    ensures Covered(limit, socks, sock, n) + pending + CountRefused(limit, socks, sock, n) == CountOf(socks, sock, n)
  {
    PendingIsSmall(limit, socks, sock, n);
    CountingConserves(limit, socks, sock, n);
    pending := Pending(After(limit, socks, n), sock);
  }

  lemma RateUpTo(limit: nat, socks: seq<nat>, sock: nat, n: nat)
    requires n <= |socks|
    ensures CountRefused(limit, socks, sock, n) <= CountOf(socks, sock, n)
    ensures CountPassed(limit, socks, sock, n)
         == Share(limit, CountOf(socks, sock, n) - CountRefused(limit, socks, sock, n))
  {
    var pending := LessThanAPassage(limit, socks, sock, n);
    ShareOfCovered(limit, socks, sock, n, pending, CountRefused(limit, socks, sock, n), CountOf(socks, sock, n));
  }

  lemma RateByShare(limit: nat, socks: seq<nat>, sock: nat) returns (all: nat, refused: nat, passed: nat)
    ensures all == CountOf(socks, sock, |socks|) && refused == CountRefused(limit, socks, sock, |socks|)
    ensures passed == CountPassed(limit, socks, sock, |socks|)
    ensures refused <= all && passed == Share(limit, all - refused)
    ensures |SocksBelow(socks, |socks|)| <= CAPACITY ==> refused == 0
  {
    var n := |socks|;
    all, refused := CountOf(socks, sock, n), CountRefused(limit, socks, sock, n);
    passed := CountPassed(limit, socks, sock, n);
    RateUpTo(limit, socks, sock, n);
    if |SocksBelow(socks, n)| <= CAPACITY {
      RoomForAll(limit, socks, sock, n);
    }
  }

  /** In every run, a socket passes exactly floor(k / (limit + 1)) times, k being how often it came up and was not
      refused, whatever other sockets do. While the hash never refuses it, that is every time it came up; and a run of
      at most 100000 sockets never does. */
  lemma Rate(limit: nat, socks: seq<nat>, sock: nat)
    ensures CountRefused(limit, socks, sock, |socks|) <= CountOf(socks, sock, |socks|)
    ensures CountPassed(limit, socks, sock, |socks|)
         == (CountOf(socks, sock, |socks|) - CountRefused(limit, socks, sock, |socks|)) / (limit + 1)
    ensures |SocksBelow(socks, |socks|)| <= 100000 ==> CountRefused(limit, socks, sock, |socks|) == 0
  {
    var all, refused, passed := RateByShare(limit, socks, sock);
    ShareIsFloor(limit, all, refused, passed);
  }

  /** Feeding one more socket, or nothing, as a caller that keeps the hash and the three counts itself would see it. */
  lemma Advance(limit: nat, socks: seq<nat>, sock: nat, k: nat, fed: bool, next: nat,
                samples: Samples, samples': Samples, passes: bool)
    requires k <= |socks| && samples == After(limit, socks, k)
    requires if fed then k < |socks| && socks[k] == next && (passes, samples') == Step(limit, samples, next)
             else samples' == samples && !passes
    ensures var k' := if fed then k + 1 else k;
            && samples' == After(limit, socks, k')
            && CountPassed(limit, socks, sock, k')
                 == CountPassed(limit, socks, sock, k) + (if next == sock && passes then 1 else 0)
            && CountOf(socks, sock, k') == CountOf(socks, sock, k) + (if next == sock && fed then 1 else 0)
            && CountRefused(limit, socks, sock, k')
                 == CountRefused(limit, socks, sock, k)
                  + (if next == sock && fed && Refuses(limit, samples, sock) then 1 else 0)
  {
  }
}
