/**
  The supervised processes as values: the argument list a process was started
  with and what `poll()` would report about it; the reader threads as the pair
  (process, queue) they connect.
 */
module Processes {

  /** `poll()`: `None` while the process runs, its exit code once it has ended. */
  datatype Status = Running | Exited(code: int)

  datatype Process = Process(args: seq<string>, status: Status)

  /** A reader thread: it moves the output of process `process` into queue `queue`. */
  datatype Worker = Worker(process: nat, queue: nat)

  /** Python truthiness of a `poll()` result: an exit code other than 0 (`None` and 0 are falsy). */
  predicate PollTruthy(s: Status)
  {
    s.Exited? && s.code != 0
  }

  /** Freshly started processes, one per argument vector, in order. */
  function Spawned(vectors: seq<seq<string>>): (ps: seq<Process>)
    ensures |ps| == |vectors|
    ensures forall i :: 0 <= i < |ps| ==> ps[i].args == vectors[i] && ps[i].status == Running
  {
    seq(|vectors|, i requires 0 <= i < |vectors| => Process(vectors[i], Running))
  }

  /** Increasing, hence free of repetitions. */
  predicate Increasing(xs: seq<nat>)
  {
    forall a, b :: 0 <= a < b < |xs| ==> xs[a] < xs[b]
  }

  /**
    The loop of `HsdsApp.check_processes` over the tracked processes: the
    positions of the processes whose `poll()` is not `None`, each reported once,
    in list order.
   */
  method EndedProcesses(ps: seq<Process>) returns (ended: seq<nat>)
    ensures forall i: nat :: i in ended <==> i < |ps| && ps[i].status.Exited?
    ensures Increasing(ended)
  {
    ended := [];
    for i := 0 to |ps|
      invariant forall k: nat :: k in ended <==> k < i && ps[k].status.Exited?
      invariant forall a :: 0 <= a < |ended| ==> ended[a] < i
      invariant Increasing(ended)
    {
      if ps[i].status.Exited? {
        ended := ended + [i];
      }
    }
  }
}
