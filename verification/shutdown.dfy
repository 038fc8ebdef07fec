/**
  What `HsdsApp.stop` does to the tracked processes, as the sequence of actions
  it takes: a SIGINT to every process, then twenty wait rounds each of which
  sleeps when some process is still running, then `terminate()` on every
  process whose last `poll()` is truthy.

  `poll()` answers depend on time and on the processes, so they are a parameter:
  `poll(r, i)` is what process i reports at the r-th poll of it, rounds
  0 to 19 in the wait loop and round 20 in the final loop.
 */
module Shutdown {
  import opened Processes

  /** The number of 0.1 second wait rounds (two seconds in all). */
  const WaitRounds := 20

  type PollOracle = (nat, nat) -> Status

  datatype Action =
    | Interrupt(process: nat)   // `p.send_signal(signal.SIGINT)`
    | Sleep                     // `time.sleep(0.1)`
    | Terminate(process: nat)   // `p.terminate()`

  /** `is_alive` after polling processes 0 to k - 1 in round r. */
  function AliveAmong(poll: PollOracle, r: nat, k: nat): bool
  {
    if k == 0 then false else AliveAmong(poll, r, k - 1) || poll(r, k - 1).Running?
  }

  lemma {:induction false} AliveAmongIff(poll: PollOracle, r: nat, k: nat)
    ensures AliveAmong(poll, r, k) <==> exists i :: 0 <= i < k && poll(r, i).Running?
  {
    if k > 0 {
      AliveAmongIff(poll, r, k - 1);
    }
  }

  /** The SIGINTs, one per process, in list order. */
  function Interrupts(n: nat): (log: seq<Action>)
    ensures |log| == n
  {
    seq(n, i requires 0 <= i < n => Interrupt(i))
  }

  /** The sleeps of wait rounds 0 to rounds - 1 over n processes. */
  function WaitLog(n: nat, poll: PollOracle, rounds: nat): (w: seq<Action>)
    ensures |w| <= rounds
  {
    if rounds == 0 then []
    else WaitLog(n, poll, rounds - 1) + (if AliveAmong(poll, rounds - 1, n) then [Sleep] else [])
  }

  /** The `terminate()` calls of the final loop over processes 0 to k - 1. */
  function Terminations(poll: PollOracle, k: nat): (t: seq<Action>)
    ensures |t| <= k
  {
    if k == 0 then []
    else Terminations(poll, k - 1) + (if PollTruthy(poll(WaitRounds, k - 1)) then [Terminate(k - 1)] else [])
  }

  /** Everything `stop` does to n tracked processes; nothing at all when there are none. */
  function StopLog(n: nat, poll: PollOracle): (log: seq<Action>)
    ensures n <= |log| <= n + WaitRounds + n
    ensures log == [] <==> n == 0
  {
    if n == 0 then [] else Interrupts(n) + WaitLog(n, poll, WaitRounds) + Terminations(poll, n)
  }

  /**
    The wait loop only sleeps, at most once per round, and sleeps at all exactly
    when some round finds a process still running.
   */
  lemma {:induction false} WaitLogShape(n: nat, poll: PollOracle, rounds: nat)
    ensures |WaitLog(n, poll, rounds)| <= rounds
    ensures forall k :: 0 <= k < |WaitLog(n, poll, rounds)| ==> WaitLog(n, poll, rounds)[k] == Sleep
    ensures WaitLog(n, poll, rounds) != [] <==>
      exists r :: 0 <= r < rounds && AliveAmong(poll, r, n)
  {
    if rounds > 0 {
      WaitLogShape(n, poll, rounds - 1);
      var w := WaitLog(n, poll, rounds - 1);
      var x := if AliveAmong(poll, rounds - 1, n) then [Sleep] else [];
      assert WaitLog(n, poll, rounds) == w + x;
      forall k | 0 <= k < |w + x| ensures (w + x)[k] == Sleep {
        if k < |w| {
          assert (w + x)[k] == w[k];
        }
      }
      if WaitLog(n, poll, rounds) == [] {
        assert w == [] && !AliveAmong(poll, rounds - 1, n);
        assert forall r :: 0 <= r < rounds ==> !AliveAmong(poll, r, n);
      } else if x != [] {
        var r: nat := rounds - 1;
        assert AliveAmong(poll, r, n);
        assert exists r' :: 0 <= r' < rounds && AliveAmong(poll, r', n);
      } else {
        var r :| 0 <= r < rounds - 1 && AliveAmong(poll, r, n);
        assert 0 <= r < rounds;
      }
    }
  }

  /** The final loop terminates exactly the processes with a truthy last poll, in list order. */
  lemma {:induction false} TerminationsExact(poll: PollOracle, k: nat)
    ensures forall j :: 0 <= j < |Terminations(poll, k)| ==>
      Terminations(poll, k)[j].Terminate? && Terminations(poll, k)[j].process < k
    ensures forall a, b :: 0 <= a < b < |Terminations(poll, k)| ==>
      Terminations(poll, k)[a].process < Terminations(poll, k)[b].process
    ensures forall i: nat :: Terminate(i) in Terminations(poll, k) <==> i < k && PollTruthy(poll(WaitRounds, i))
  {
    if k > 0 {
      TerminationsExact(poll, k - 1);
      var t := Terminations(poll, k - 1);
      var u := Terminations(poll, k);
      var last := if PollTruthy(poll(WaitRounds, k - 1)) then [Terminate(k - 1)] else [];
      assert u == t + last;
      forall j | 0 <= j < |u| ensures u[j].Terminate? && u[j].process < k {
        if j < |t| {
          assert u[j] == t[j];
        }
      }
      forall a, b | 0 <= a < b < |u| ensures u[a].process < u[b].process {
        assert u[a] == t[a];
        if b < |t| {
          assert u[b] == t[b];
        }
      }
    }
  }

  /**
    Every tracked process is sent SIGINT exactly once, before anything else;
    nothing after the first n actions is a SIGINT.
   */
  lemma InterruptsFirst(n: nat, poll: PollOracle)
    ensures var log := StopLog(n, poll);
      |log| >= n &&
      forall k :: 0 <= k < |log| ==> (log[k].Interrupt? <==> k < n) && (k < n ==> log[k] == Interrupt(k))
  {
    if n > 0 {
      var w := WaitLog(n, poll, WaitRounds);
      var t := Terminations(poll, n);
      WaitLogShape(n, poll, WaitRounds);
      TerminationsExact(poll, n);
      var log := StopLog(n, poll);
      forall k | n <= k < |log| ensures !log[k].Interrupt? {
        if k < n + |w| {
          assert log[k] == w[k - n];
        } else {
          assert log[k] == t[k - n - |w|];
        }
      }
    }
  }

  /**
    `stop` calls `terminate()` on process i exactly when i is tracked and its
    last `poll()` is truthy, that is, it exited with a nonzero code; a process
    still running after the wait is never terminated.
   */
  lemma TerminatesExactly(n: nat, poll: PollOracle, i: nat)
    ensures Terminate(i) in StopLog(n, poll) <==> i < n && PollTruthy(poll(WaitRounds, i))
    ensures i < n && poll(WaitRounds, i).Running? ==> Terminate(i) !in StopLog(n, poll)
  {
    if n > 0 {
      var w := WaitLog(n, poll, WaitRounds);
      WaitLogShape(n, poll, WaitRounds);
      TerminationsExact(poll, n);
      assert Terminate(i) !in Interrupts(n);
      assert Terminate(i) !in w;
    }
  }

  /**
    The sleeps sit between the SIGINTs and the terminations: at most one per
    wait round, and one at least exactly when some wait round saw a running process.
   */
  lemma SleepsWhileAlive(n: nat, poll: PollOracle)
    requires n > 0
    ensures var log := StopLog(n, poll);
      var w := WaitLog(n, poll, WaitRounds);
      log[n..n + |w|] == w && |w| <= WaitRounds && (forall k :: 0 <= k < |w| ==> w[k] == Sleep)
    ensures Sleep in StopLog(n, poll) <==>
      exists r, i :: 0 <= r < WaitRounds && 0 <= i < n && poll(r, i).Running?
  {
    var w := WaitLog(n, poll, WaitRounds);
    var log := StopLog(n, poll);
    WaitLogShape(n, poll, WaitRounds);
    TerminationsExact(poll, n);
    assert log[n..n + |w|] == w;
    assert Sleep !in Interrupts(n);
    assert Sleep !in Terminations(poll, n);
    if Sleep in log {
      assert Sleep in w;
      var r :| 0 <= r < WaitRounds && AliveAmong(poll, r, n);
      AliveAmongIff(poll, r, n);
    }
    if exists r, i :: 0 <= r < WaitRounds && 0 <= i < n && poll(r, i).Running? {
      var r, i :| 0 <= r < WaitRounds && 0 <= i < n && poll(r, i).Running?;
      AliveAmongIff(poll, r, n);
      assert w != [];
      assert w[0] in log;
    }
  }

  /**
    The `is_alive` loop of one wait round: whether some process is still
    running at poll round r.
   */
  method AnyRunning(poll: PollOracle, r: nat, n: nat) returns (isAlive: bool)
    ensures isAlive == AliveAmong(poll, r, n)
    ensures isAlive <==> exists i :: 0 <= i < n && poll(r, i).Running?
  {
    isAlive := false;
    for i := 0 to n
      invariant isAlive == AliveAmong(poll, r, i)
    {
      if poll(r, i).Running? {
        isAlive := true;
      }
    }
    AliveAmongIff(poll, r, n);
  }
}
