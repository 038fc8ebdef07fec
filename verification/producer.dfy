/**
  The reader loop `_enqueue_output`: `for line in iter(out.readline, sentinel)`
  puts every line read from a process's stdout into its queue and stops at the
  first `readline()` result equal to the sentinel.

  The pipes are opened in text mode (`universal_newlines=True`), so `readline()`
  returns a `str`: the next line, newline included, and `''` once the stream
  has ended. The loop as written compares against the `bytes` value `b''`,
  which no `str` equals, so it never stops; the intended sentinel is `''`.
 */
module Producer {
  import opened Text

  /** The two kinds of Python value that take part in the comparison. */
  datatype PyValue = Str(s: string) | Bytes(b: seq<bv8>)

  /** The sentinel written in the source: `b''`. */
  const AsWrittenSentinel: PyValue := Bytes([])

  /** The end-of-stream value of a text-mode `readline()`: `''`. */
  const EofSentinel: PyValue := Str("")

  /**
    The k-th `readline()` on a text-mode pipe whose remaining lines are
    `stream`: the k-th line, then `''` for ever.
   */
  function ReadLine(stream: seq<string>, k: nat): (v: PyValue)
    ensures v.Str?
    ensures v == EofSentinel <==> k >= |stream| || stream[k] == ""
  {
    if k < |stream| then Str(stream[k]) else Str("")
  }

  /** The queue contents put so far, and whether the loop has ended. */
  datatype Progress = Progress(queued: seq<string>, stopped: bool)

  /** The state of the reader loop after `calls` calls of `readline()` at most. */
  function Produced(stream: seq<string>, sentinel: PyValue, calls: nat): (p: Progress)
    ensures |p.queued| <= calls
    ensures !p.stopped ==> |p.queued| == calls
  {
    if calls == 0 then Progress([], false)
    else
      var p := Produced(stream, sentinel, calls - 1);
      var v := ReadLine(stream, calls - 1);
      if p.stopped then p
      else if v == sentinel then Progress(p.queued, true)
      else Progress(p.queued + [v.s], false)
  }

  /** The lines before the end of the stream: those before the first `''`. */
  function UntilEof(stream: seq<string>): (lines: seq<string>)
    ensures |lines| <= |stream| && lines == stream[..|lines|]
    ensures forall k :: 0 <= k < |lines| ==> lines[k] != ""
    ensures |lines| < |stream| ==> stream[|lines|] == ""
  {
    if stream == [] || stream[0] == "" then []
    else [stream[0]] + UntilEof(stream[1..])
  }

  /** A stream of real lines (a line read from a pipe is never empty) is read to its end. */
  lemma UntilEofAll(stream: seq<string>)
    requires forall k :: 0 <= k < |stream| ==> stream[k] != ""
    ensures UntilEof(stream) == stream
  {
  }

  /**
    The loop as written never stops: after any number of `readline()` calls it
    is still running, and once the stream has ended every further call puts
    another `''` into the queue.
   */
  lemma {:induction false} AsWrittenNeverStops(stream: seq<string>, calls: nat)
    ensures !Produced(stream, AsWrittenSentinel, calls).stopped
    ensures |Produced(stream, AsWrittenSentinel, calls).queued| == calls
    ensures forall k :: 0 <= k < calls ==>
      Produced(stream, AsWrittenSentinel, calls).queued[k] == if k < |stream| then stream[k] else ""
  {
    if calls > 0 {
      AsWrittenNeverStops(stream, calls - 1);
      var p := Produced(stream, AsWrittenSentinel, calls - 1);
      var q := Produced(stream, AsWrittenSentinel, calls).queued;
      assert q == p.queued + [ReadLine(stream, calls - 1).s];
      forall k | 0 <= k < calls ensures q[k] == if k < |stream| then stream[k] else "" {
        if k < calls - 1 {
          assert q[k] == p.queued[k];
        }
      }
    }
  }

  /** The concrete case: a process that wrote nothing, after three reads, has queued three empty lines. */
  lemma AsWrittenQueuesEmptyLines()
    ensures Produced([], AsWrittenSentinel, 3) == Progress(["", "", ""], false)
  {
    AsWrittenNeverStops([], 3);
  }

  /**
    With `''` as sentinel the loop queues the lines before the end of the stream,
    in order, one per call, and stops at the first call past them; from then on
    nothing changes.
   */
  lemma {:induction false} CorrectedStopsAtEof(stream: seq<string>, calls: nat)
    ensures var lines := UntilEof(stream);
      Produced(stream, EofSentinel, calls) ==
        if calls <= |lines| then Progress(lines[..calls], false) else Progress(lines, true)
  {
    if calls > 0 {
      CorrectedStopsAtEof(stream, calls - 1);
      var lines := UntilEof(stream);
      if calls <= |lines| {
        assert lines[..calls] == lines[..calls - 1] + [stream[calls - 1]];
      } else if calls - 1 == |lines| {
        assert lines[..calls - 1] == lines;
      }
    }
  }

  /**
    `_enqueue_output` run to completion, with the end-of-stream sentinel `''`:
    every `queue.put(line)` appends one line, so the queue ends up holding what
    it held before followed by the lines of the stream up to its end, in order.
   */
  method EnqueueOutput(stream: seq<string>, queue: seq<string>) returns (filled: seq<string>)
    ensures filled == queue + UntilEof(stream)
  {
    ghost var lines := UntilEof(stream);
    filled := queue;
    var k := 0;
    assert lines[..0] == [] && queue + [] == queue;
    while true
      invariant 0 <= k <= |lines|
      invariant filled == queue + lines[..k]
      decreases |stream| - k
    {
      var line := ReadLine(stream, k);
      if line == EofSentinel {
        assert k == |lines| && lines[..k] == lines;
        break;
      }
      assert k < |lines| && lines[k] == line.s;
      assert lines[..k + 1] == lines[..k] + [line.s];
      AppendAssociative(queue, lines[..k], [line.s]);
      filled := filled + [line.s];
      k := k + 1;
    }
  }
}
