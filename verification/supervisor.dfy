/**
  `HsdsApp`: the object that starts and stops a local HSDS service made of one
  service node, one rangeget proxy and `dn_count` datanodes, all talking over
  Unix sockets in a temporary directory, and that relays their output.

  The derived addresses are fixed at construction; `run`, `stop`,
  `check_processes` and `print_process_output` update the three lists
  `_processes`, `_queues` and `_threads`.
 */
module Supervisor {
  import opened Wrappers
  import opened Text
  import opened StringOrder
  import opened SocketDir
  import opened Topology
  import opened Launch
  import opened OutputQueues
  import opened Processes
  import opened Shutdown
  import opened Producer

  /** What `run` reads from the instance to build the argument vectors. */
  function Config(tempdirName: string, dnCount: int, username: Option<string>, password: Option<string>): LaunchConfig
    requires |tempdirName| > 0
  {
    var socketDir := SocketDirOf(tempdirName);
    LaunchConfig(Join(SortedDnUrls(socketDir, dnCount), ','), RangegetUrl(socketDir),
                 EndpointUrl(socketDir), username, password)
  }

  /** The argument vectors of the processes a fresh `run` starts: `dn_count + 2` of them. */
  function Deployment(tempdirName: string, dnCount: int, username: Option<string>, password: Option<string>): (vs: seq<seq<string>>)
    requires |tempdirName| > 0
    ensures |vs| == RangeLen(dnCount + 2)
  {
    ArgVectors(Config(tempdirName, dnCount, username, password), RangeLen(dnCount + 2))
  }

  /**
    The roles of a deployment: process 0 is the service node, process 1 the
    rangeget proxy, every other process a datanode; all end with the common
    arguments; `--node_number=k` is carried by process k + 2 and by no other, and
    the datanodes are numbered 0 to dn_count - 1.
   */
  lemma DeploymentRoles(tempdirName: string, dnCount: int, username: Option<string>, password: Option<string>)
    requires |tempdirName| > 0
    ensures var vs := Deployment(tempdirName, dnCount, username, password);
      forall i :: 0 <= i < |vs| ==>
        |vs[i]| >= 5 &&
        vs[i][|vs[i]| - 5..] == CommonArgs(Config(tempdirName, dnCount, username, password)) &&
        vs[i][0] == (if i == 0 then "hsds-servicenode" else if i == 1 then "hsds-rangeget" else "hsds-datanode")
    ensures var vs := Deployment(tempdirName, dnCount, username, password);
      forall i, k: nat :: 0 <= i < |vs| ==> (NodeNumberFlag + NatToString(k) in vs[i] <==> i == k + 2)
    ensures var vs := Deployment(tempdirName, dnCount, username, password);
      (dnCount >= 0 ==> |vs| == dnCount + 2) && (dnCount < 0 ==> |vs| <= 1)
  {
    var cfg := Config(tempdirName, dnCount, username, password);
    var vs := Deployment(tempdirName, dnCount, username, password);
    forall i | 0 <= i < |vs|
      ensures |vs[i]| >= 5 && vs[i][|vs[i]| - 5..] == CommonArgs(cfg)
      ensures vs[i][0] == (if i == 0 then "hsds-servicenode" else if i == 1 then "hsds-rangeget" else "hsds-datanode")
    {
      VectorLayout(cfg, i);
    }
    forall i, k: nat | 0 <= i < |vs|
      ensures NodeNumberFlag + NatToString(k) in vs[i] <==> i == k + 2
    {
      NodeNumbersExact(cfg, i, k);
    }
  }

  /**
    Datanode k (0 <= k < dn_count) finds its own socket from the list it is
    given: it receives the full sorted list joined by commas, splitting that
    argument back gives the list, position k exists in it, and no two positions
    name the same socket. This needs a temporary directory name without commas.
   */
  lemma DatanodeIdentity(tempdirName: string, dnCount: int, username: Option<string>, password: Option<string>, k: nat)
    requires |tempdirName| > 0 && ',' !in tempdirName && k < RangeLen(dnCount)
    ensures var vs := Deployment(tempdirName, dnCount, username, password);
      var urls := SortedDnUrls(SocketDirOf(tempdirName), dnCount);
      k + 2 < |vs| &&
      "--dn_urls=" + Join(urls, ',') in vs[k + 2] &&
      NodeNumberFlag + NatToString(k) in vs[k + 2] &&
      Split(Join(urls, ','), ',') == urls && k < |urls| && Distinct(urls)
  {
    var cfg := Config(tempdirName, dnCount, username, password);
    var socketDir := SocketDirOf(tempdirName);
    var urls := SortedDnUrls(socketDir, dnCount);
    var vs := Deployment(tempdirName, dnCount, username, password);
    EscapeAllKeepsAbsent(tempdirName, ',');
    assert ',' !in socketDir;
    var v := vs[k + 2];
    assert v == ArgVector(cfg, k + 2);
    VectorLayout(cfg, k + 2);
    assert v[2] == "--dn_urls=" + Join(urls, ',');
    assert v[3] == NodeNumberFlag + NatToString(k);
    DnUrlsArg(socketDir, dnCount);
    SortedDnUrlsDistinct(socketDir, dnCount);
  }

  /** `n` new, empty queues. */
  function FreshQueues(n: nat): (qs: seq<seq<string>>)
    ensures |qs| == n && forall j :: 0 <= j < n ==> qs[j] == []
  {
    seq(n, j requires 0 <= j < n => [])
  }

  /** The reader threads of processes 0 to n - 1, the first reading into queue `firstQueue`. */
  function Workers(n: nat, firstQueue: nat): (ws: seq<Worker>)
    ensures |ws| == n && forall i :: 0 <= i < n ==> ws[i] == Worker(i, firstQueue + i)
  {
    seq(n, i requires 0 <= i < n => Worker(i, firstQueue + i))
  }

  class HsdsApp {
    const tempdirName: string
    const socketDir: string
    /** `_dn_urls`, sorted at construction. */
    const dnUrls: seq<string>
    const endpoint: string
    const rangegetUrl: string
    const dnCount: int
    const username: Option<string>
    const password: Option<string>
    /** `_logfile`: always `None`, whatever the `logfile` argument was. */
    const logfile: Option<string>

    var processes: seq<Process>
    var queues: seq<seq<string>>
    var threads: seq<Worker>

    /** The addresses are those derived from the temporary directory's name. */
    ghost predicate Addresses()
    {
      |tempdirName| > 0 &&
      socketDir == SocketDirOf(tempdirName) &&
      dnUrls == SortedDnUrls(socketDir, dnCount) &&
      endpoint == EndpointUrl(socketDir) &&
      rangegetUrl == RangegetUrl(socketDir) &&
      logfile == None
    }

    /**
      The tracked processes and threads correspond one to one, thread i reading
      process i's output into one of the last |processes| queues.
     */
    ghost predicate Tracking()
      reads this
    {
      |threads| == |processes| <= |queues| &&
      threads == Workers(|processes|, |queues| - |processes|)
    }

    ghost predicate Valid()
      reads this
    {
      Addresses() && Tracking()
    }

    /** The argument vectors a fresh `run` of this instance starts. */
    ghost function Fleet(): seq<seq<string>>
      requires |tempdirName| > 0
    {
      Deployment(tempdirName, dnCount, username, password)
    }

    /**
      `HsdsApp.__init__`, given the name of the temporary directory it creates.
      The logger only chooses where diagnostics go and is not modelled; the
      `logfile` argument is accepted and dropped.
     */
    constructor (tempdirName: string, username: Option<string> := None, password: Option<string> := None,
                 dnCount: int := 1, logfile: Option<string> := None)
      requires |tempdirName| > 0
      ensures Valid()
      ensures this.tempdirName == tempdirName && this.dnCount == dnCount
      ensures this.username == username && this.password == password
      ensures processes == [] && queues == [] && threads == []
    {
      this.tempdirName := tempdirName;
      var dir := EncodeSocketDir(tempdirName);
      socketDir := dir;
      var urls := BuildDnUrls(dir, dnCount);
      dnUrls := SortStrings(urls);
      endpoint := Scheme + dir + "sn_1.sock";
      rangegetUrl := Scheme + dir + "rangeget.sock";
      this.dnCount := dnCount;
      this.username := username;
      this.password := password;
      this.logfile := None;
      processes := [];
      queues := [];
      threads := [];
    }

    /** The `endpoint` property: the service node's URL, which no other process listens on. */
    function Endpoint(): (url: string)
      requires Valid()
      reads this
      ensures url == EndpointUrl(socketDir)
      ensures url != rangegetUrl && url !in dnUrls
    {
      EndpointNotADatanode();
      endpoint
    }

    lemma EndpointNotADatanode()
      requires Valid()
      ensures endpoint != rangegetUrl && endpoint !in dnUrls
    {
      EndpointsDistinct(socketDir, 0);
      if endpoint in dnUrls {
        var i :| 0 <= i < |dnUrls| && dnUrls[i] == endpoint;
        SortedDnUrlsAreDnUrls(socketDir, dnCount, i);
        var k :| 1 <= k <= RangeLen(dnCount) && dnUrls[i] == DnUrl(socketDir, k);
        EndpointsDistinct(socketDir, k);
      }
    }

    /**
      One pass of the `while True` loop of `print_process_output`: every
      non-empty queue, in order, gives up its head, which is printed stripped.
     */
    method PrintPass() returns (lines: seq<string>, gotOutput: bool, ghost pass: seq<Emission>)
      modifies this`queues
      ensures pass == Heads(old(queues)) && queues == Tails(old(queues))
      ensures lines == Printed(pass) && (gotOutput <==> pass != [])
    {
      lines, gotOutput, pass := [], false, [];
      ghost var before := queues;
      var qs := queues;
      PassEnds(before);
      var j := 0;
      while j < |qs|
        invariant 0 <= j <= |qs| == |before|
        invariant qs == Visited(before, j) && queues == qs
        invariant pass == Heads(before[..j])
        invariant lines == Printed(pass)
        invariant gotOutput <==> pass != []
      {
        PassStep(before, j);
        PrintedAppend(pass, HeadOf(before[j], j));
        assert qs[j] == before[j];
        if qs[j] != [] {
          var line := qs[j][0];
          qs := qs[j := qs[j][1..]];
          queues := qs;
          lines := lines + [Strip(line)];
          gotOutput := true;
        }
        pass := pass + HeadOf(before[j], j);
        j := j + 1;
      }
    }

    /**
      `print_process_output` with no producer running beside it: passes over
      the queues until one finds them all empty. Every queued line is printed
      once, stripped, in the order Drain gives, and the queues are left empty.
     */
    method PrintProcessOutput() returns (printed: seq<string>)
      modifies this`queues
      ensures |queues| == |old(queues)| && forall j :: 0 <= j < |queues| ==> queues[j] == []
      ensures printed == Printed(Drain(old(queues)))
      ensures |printed| == TotalLen(old(queues))
    {
      printed := [];
      ghost var emitted: seq<Emission> := [];
      ghost var start := queues;
      ghost var current := queues;
      while true
        invariant queues == current && |current| == |start|
        invariant emitted + Drain(current) == Drain(start)
        invariant printed == Printed(emitted)
        decreases TotalLen(current)
      {
        ghost var before := current;
        var lines, gotOutput, pass := PrintPass();
        current := queues;
        DrainStep(before);
        if !gotOutput {
          assert emitted + [] == emitted;
          break;
        }
        AppendAssociative(emitted, pass, Drain(current));
        PrintedAppend(emitted, pass);
        printed := printed + lines;
        emitted := emitted + pass;
      }
      DrainEmitsAll(old(queues));
    }

    /**
      `check_processes`: prints the pending output, then reports every tracked
      process whose `poll()` is not `None`.
     */
    method CheckProcesses() returns (printed: seq<string>, ended: seq<nat>)
      modifies this`queues
      ensures |queues| == |old(queues)| && forall j :: 0 <= j < |queues| ==> queues[j] == []
      ensures printed == Printed(Drain(old(queues)))
      ensures forall i: nat :: i in ended <==> i < |processes| && processes[i].status.Exited?
      ensures Increasing(ended)
    {
      printed := PrintProcessOutput();
      ended := EndedProcesses(processes);
    }

    /**
      `run`. With processes already tracked it only checks on them: it starts
      nothing and the three lists keep their length (only the queued lines are
      printed away). Otherwise it starts one process per argument vector of the
      deployment and, `_logfile` being `None`, gives each a new queue and a
      reader thread; earlier queues stay where they are.
     */
    method Run() returns (printed: seq<string>, ended: seq<nat>)
      requires Valid()
      modifies this`processes, this`queues, this`threads
      ensures Valid()
      ensures old(processes) != [] ==>
        processes == old(processes) && threads == old(threads) &&
        |queues| == |old(queues)| && (forall j :: 0 <= j < |queues| ==> queues[j] == []) &&
        printed == Printed(Drain(old(queues))) &&
        (forall i: nat :: i in ended <==> i < |processes| && processes[i].status.Exited?)
      ensures old(processes) == [] ==>
        processes == Spawned(Fleet()) &&
        queues == old(queues) + FreshQueues(|Fleet()|) &&
        threads == Workers(|Fleet()|, |old(queues)|) &&
        printed == [] && ended == []
    {
      if processes != [] {
        printed, ended := CheckProcesses();
        return;
      }
      printed, ended := [], [];
      DnUrlsArg(socketDir, dnCount);
      var dnUrlsArg := JoinUrls(dnUrls);
      var cfg := LaunchConfig(dnUrlsArg, rangegetUrl, endpoint, username, password);
      assert cfg == Config(tempdirName, dnCount, username, password);
      var vectors := BuildArgVectors(cfg, dnCount + 2);
      Spawn(vectors);
    }

    /**
      The `Popen` part of the loop of `run`: one started process per vector
      and, since `_logfile` is `None`, one new queue and one reader thread for it.
     */
    method Spawn(vectors: seq<seq<string>>)
      requires processes == [] && threads == [] && logfile == None
      modifies this`processes, this`queues, this`threads
      ensures processes == Spawned(vectors)
      ensures queues == old(queues) + FreshQueues(|vectors|)
      ensures threads == Workers(|vectors|, |old(queues)|)
    {
      ghost var start := queues;
      var procs, qs, ts := processes, queues, threads;
      for i := 0 to |vectors|
        invariant procs == Spawned(vectors[..i]) && qs == start + FreshQueues(i) && ts == Workers(i, |start|)
        invariant processes == procs && queues == qs && threads == ts
      {
        assert vectors[..i + 1] == vectors[..i] + [vectors[i]];
        assert Spawned(vectors[..i + 1]) == procs + [Process(vectors[i], Running)];
        assert start + FreshQueues(i + 1) == qs + [[]];
        assert Workers(i + 1, |start|) == ts + [Worker(i, |start| + i)];
        procs := procs + [Process(vectors[i], Running)];
        processes := procs;
        if logfile == None {
          qs := qs + [[]];
          queues := qs;
          ts := ts + [Worker(|procs| - 1, |qs| - 1)];
          threads := ts;
        }
      }
      assert vectors[..|vectors|] == vectors;
    }

    /**
      `stop`, with `poll` standing for the answers of `poll()`. Nothing happens
      when no process is tracked; otherwise the actions are those of StopLog.
      Afterwards no process and no thread is tracked; the queues are kept.
     */
    method Stop(poll: PollOracle) returns (log: seq<Action>)
      requires Valid()
      modifies this`processes, this`threads
      ensures Valid()
      ensures log == StopLog(|old(processes)|, poll)
      ensures processes == [] && threads == [] && queues == old(queues)
    {
      log := [];
      if processes == [] {
        return;
      }
      var n := |processes|;
      for i := 0 to n
        invariant log == Interrupts(i)
      {
        log := log + [Interrupt(i)];
      }
      for round := 0 to WaitRounds
        invariant log == Interrupts(n) + WaitLog(n, poll, round)
      {
        var isAlive := AnyRunning(poll, round, n);
        if isAlive {
          log := log + [Sleep];
        }
      }
      for i := 0 to n
        invariant log == Interrupts(n) + WaitLog(n, poll, WaitRounds) + Terminations(poll, i)
      {
        if PollTruthy(poll(WaitRounds, i)) {
          log := log + [Terminate(i)];
        }
      }
      processes := [];
      threads := [];
    }

    /**
      The operating system's side of `poll()`: running process i has ended with
      `code`. Only its status changes; a process ends once.
     */
    method ReportExit(i: nat, code: int)
      requires Valid() && i < |processes| && processes[i].status == Running
      modifies this`processes
      ensures Valid()
      ensures processes == old(processes)[i := Process(old(processes)[i].args, Exited(code))]
    {
      processes := processes[i := Process(processes[i].args, Exited(code))];
    }

    /**
      Reader thread i run to completion before anything reads its queue: the
      lines of its process's output up to the end of the stream are appended to
      the queue the thread was given; no other queue changes.
     */
    method RunReader(i: nat, stream: seq<string>)
      requires Valid() && i < |threads|
      modifies this`queues
      ensures Valid()
      ensures threads[i].queue < |queues|
      ensures queues == old(queues)[threads[i].queue := old(queues)[threads[i].queue] + UntilEof(stream)]
    {
      var j := threads[i].queue;
      var filled := Producer.EnqueueOutput(stream, queues[j]);
      queues := queues[j := filled];
    }
  }

  /** A second `stop` right after a first does nothing: no action, nothing tracked. */
  method StopTwice(app: HsdsApp, poll: PollOracle) returns (first: seq<Action>, second: seq<Action>)
    requires app.Valid()
    modifies app`processes, app`threads
    ensures app.Valid() && app.processes == [] && app.threads == []
    ensures first == StopLog(|old(app.processes)|, poll) && second == []
  {
    first := app.Stop(poll);
    second := app.Stop(poll);
  }

  /**
    `run`, `stop`, `run` on a fresh instance: the second run starts the whole
    deployment again, and since `_queues` is never cleared the queues of the
    first run stay behind its new ones.
   */
  method RestartKeepsOldQueues(app: HsdsApp, poll: PollOracle)
    requires app.Valid() && app.processes == []
    modifies app`processes, app`queues, app`threads
    ensures app.Valid() && app.processes == Spawned(app.Fleet())
    ensures app.queues == old(app.queues) + FreshQueues(|app.Fleet()|) + FreshQueues(|app.Fleet()|)
  {
    var _, _ := app.Run();
    var _ := app.Stop(poll);
    var _, _ := app.Run();
  }
}
