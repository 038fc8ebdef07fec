/**
  What `HsdsApp.print_process_output` emits when no producer runs beside it:
  round-robin passes over the FIFO queues, each pass taking the head of every
  non-empty queue in queue order, until a pass finds every queue empty.
 */
module OutputQueues {
  import opened Text

  /** One line taken off queue `queue`. */
  datatype Emission = Emission(queue: nat, line: string)

  function Tail(q: seq<string>): seq<string>
  {
    if q == [] then [] else q[1..]
  }

  /** The number of lines waiting in all the queues. */
  function TotalLen(qs: seq<seq<string>>): nat
  {
    if qs == [] then 0 else TotalLen(qs[..|qs| - 1]) + |qs[|qs| - 1]|
  }

  /** What `q.get_nowait()` yields on queue j: its head, or nothing when it is empty. */
  function HeadOf(q: seq<string>, j: nat): seq<Emission>
  {
    if q == [] then [] else [Emission(j, q[0])]
  }

  /** One pass of `for q in self._queues`: the head of every non-empty queue, in queue order. */
  function Heads(qs: seq<seq<string>>): (pass: seq<Emission>)
    ensures |pass| <= |qs|
    ensures pass == [] <==> forall j :: 0 <= j < |qs| ==> qs[j] == []
  {
    if qs == [] then []
    else
      var n := |qs| - 1;
      assert forall j :: 0 <= j < n ==> qs[..n][j] == qs[j];
      Heads(qs[..n]) + HeadOf(qs[n], n)
  }

  /** The queues after one pass: every non-empty queue lost its head. */
  function Tails(qs: seq<seq<string>>): (rest: seq<seq<string>>)
    ensures |rest| == |qs|
  {
    seq(|qs|, j requires 0 <= j < |qs| => Tail(qs[j]))
  }

  /** A pass emits exactly as many lines as it removes. */
  lemma {:induction false} PassShrinks(qs: seq<seq<string>>)
    ensures |Heads(qs)| + TotalLen(Tails(qs)) == TotalLen(qs)
  {
    if qs != [] {
      var n := |qs| - 1;
      assert Tails(qs)[..n] == Tails(qs[..n]);
      PassShrinks(qs[..n]);
    }
  }

  /**
    The whole drain: passes until one finds nothing. Termination rests on
    PassShrinks: every pass that emits something shortens the queues.
   */
  function Drain(qs: seq<seq<string>>): (out: seq<Emission>)
    ensures forall e :: e in out ==> e.queue < |qs|
    decreases TotalLen(qs)
  {
    var pass := Heads(qs);
    if pass == [] then []
    else
      PassShrinks(qs);
      HeadsRoundRobin(qs);
      pass + Drain(Tails(qs))
  }

  /**
    One pass of the drain: if it finds a line, the drain continues on the
    shorter tails; if not, every queue is empty and nothing is emitted.
   */
  lemma DrainStep(qs: seq<seq<string>>)
    ensures Heads(qs) != [] ==> Drain(qs) == Heads(qs) + Drain(Tails(qs)) && TotalLen(Tails(qs)) < TotalLen(qs)
    ensures Heads(qs) == [] ==> Drain(qs) == [] && Tails(qs) == qs
  {
    PassShrinks(qs);
    if Heads(qs) == [] {
      assert forall j :: 0 <= j < |qs| ==> Tails(qs)[j] == Tail(qs[j]) == qs[j];
    }
  }

  /** The lines emitted from queue j, in emission order. */
  function LinesOf(es: seq<Emission>, j: nat): seq<string>
  {
    if es == [] then []
    else LinesOf(es[..|es| - 1], j) + (if es[|es| - 1].queue == j then [es[|es| - 1].line] else [])
  }

  lemma {:induction false} LinesOfAppend(a: seq<Emission>, b: seq<Emission>, j: nat)
    ensures LinesOf(a + b, j) == LinesOf(a, j) + LinesOf(b, j)
  {
    if b != [] {
      var n := |b| - 1;
      assert (a + b)[..|a + b| - 1] == a + b[..n];
      LinesOfAppend(a, b[..n], j);
    } else {
      assert a + b == a;
    }
  }

  lemma LinesOfHeadOf(q: seq<string>, n: nat, j: nat)
    ensures LinesOf(HeadOf(q, n), j) == if n == j && q != [] then [q[0]] else []
  {
    if q != [] {
      var e := HeadOf(q, n);
      assert e[..0] == [];
      assert LinesOf(e, j) == LinesOf([], j) + (if n == j then [q[0]] else []);
    }
  }

  /** A pass takes exactly the head of queue j from queue j (if it has one). */
  lemma {:induction false} LinesOfHeads(qs: seq<seq<string>>, j: nat)
    ensures LinesOf(Heads(qs), j) == if j < |qs| && qs[j] != [] then [qs[j][0]] else []
  {
    if qs != [] {
      var n := |qs| - 1;
      assert Heads(qs) == Heads(qs[..n]) + HeadOf(qs[n], n);
      LinesOfAppend(Heads(qs[..n]), HeadOf(qs[n], n), j);
      LinesOfHeads(qs[..n], j);
      LinesOfHeadOf(qs[n], n, j);
      if j < n {
        assert qs[..n][j] == qs[j];
      }
    }
  }

  /** At most one line per queue per pass, in increasing queue order. */
  lemma {:induction false} HeadsRoundRobin(qs: seq<seq<string>>)
    ensures forall a, b :: 0 <= a < b < |Heads(qs)| ==> Heads(qs)[a].queue < Heads(qs)[b].queue
    ensures forall e :: e in Heads(qs) ==> e.queue < |qs| && qs[e.queue] != [] && e.line == qs[e.queue][0]
  {
    if qs != [] {
      var n := |qs| - 1;
      HeadsRoundRobin(qs[..n]);
      var front := Heads(qs[..n]);
      var pass := front + HeadOf(qs[n], n);
      assert Heads(qs) == pass;
      forall e | e in pass
        ensures e.queue < |qs| && qs[e.queue] != [] && e.line == qs[e.queue][0]
      {
        if e in front {
          assert qs[e.queue] == qs[..n][e.queue];
        }
      }
      forall a, b | 0 <= a < b < |pass| ensures pass[a].queue < pass[b].queue {
        if b < |front| {
          assert pass[a] == front[a] && pass[b] == front[b];
        } else {
          assert pass[a] == front[a];
          assert pass[a] in front;
          assert pass[a].queue < n;
          assert qs[n] != [];
          assert pass[b] == Emission(n, qs[n][0]);
        }
      }
    }
  }

  /**
    FIFO and completeness: the lines emitted from queue j are exactly the lines
    queue j held, in the order it held them; nothing is emitted for a queue
    that does not exist.
   */
  lemma {:induction false} DrainIsFifo(qs: seq<seq<string>>, j: nat)
    ensures LinesOf(Drain(qs), j) == if j < |qs| then qs[j] else []
    decreases TotalLen(qs)
  {
    var pass := Heads(qs);
    if pass != [] {
      PassShrinks(qs);
      var rest := Tails(qs);
      assert Drain(qs) == pass + Drain(rest);
      LinesOfAppend(pass, Drain(rest), j);
      LinesOfHeads(qs, j);
      DrainIsFifo(rest, j);
      if j < |qs| {
        assert rest[j] == Tail(qs[j]);
        if qs[j] != [] {
          HeadTail(qs[j]);
        }
      }
    } else {
      assert Drain(qs) == [];
      if j < |qs| {
        assert qs[j] == [];
      }
    }
  }

  /** Queues that are all empty hold no line. */
  lemma {:induction false} AllEmptyTotalLen(qs: seq<seq<string>>)
    requires forall j :: 0 <= j < |qs| ==> qs[j] == []
    ensures TotalLen(qs) == 0
  {
    if qs != [] {
      AllEmptyTotalLen(qs[..|qs| - 1]);
    }
  }

  /** Every line waiting in the queues is emitted, and nothing more. */
  lemma {:induction false} DrainEmitsAll(qs: seq<seq<string>>)
    ensures |Drain(qs)| == TotalLen(qs)
    decreases TotalLen(qs)
  {
    var pass := Heads(qs);
    PassShrinks(qs);
    if pass != [] {
      DrainEmitsAll(Tails(qs));
    } else {
      AllEmptyTotalLen(qs);
    }
  }

  /** The queues part-way through a pass: queues 0 to j - 1 have lost their head. */
  function Visited(qs: seq<seq<string>>, j: nat): (vs: seq<seq<string>>)
    ensures |vs| == |qs|
  {
    seq(|qs|, i requires 0 <= i < |qs| => if i < j then Tail(qs[i]) else qs[i])
  }

  /** Visiting queue j, the j-th of a pass, takes its head and leaves its tail. */
  lemma PassStep(qs: seq<seq<string>>, j: nat)
    requires j < |qs|
    ensures Heads(qs[..j + 1]) == Heads(qs[..j]) + HeadOf(qs[j], j)
    ensures Visited(qs, j)[j := Tail(qs[j])] == Visited(qs, j + 1)
  {
    assert qs[..j + 1][..j] == qs[..j];
  }

  /** Before a pass nothing is visited; after it every queue has lost its head. */
  lemma PassEnds(qs: seq<seq<string>>)
    ensures Visited(qs, 0) == qs
    ensures Visited(qs, |qs|) == Tails(qs)
    ensures qs[..|qs|] == qs
  {
  }

  /** The text printed for each emission: the line, stripped. */
  function Printed(es: seq<Emission>): (out: seq<string>)
    ensures |out| == |es|
  {
    if es == [] then [] else Printed(es[..|es| - 1]) + [Strip(es[|es| - 1].line)]
  }

  lemma {:induction false} PrintedAppend(a: seq<Emission>, b: seq<Emission>)
    ensures Printed(a + b) == Printed(a) + Printed(b)
  {
    if b != [] {
      var n := |b| - 1;
      var ab := a + b;
      assert ab[..|ab| - 1] == a + b[..n] && ab[|ab| - 1] == b[n];
      assert Printed(ab) == Printed(a + b[..n]) + [Strip(b[n].line)];
      PrintedAppend(a, b[..n]);
      AppendAssociative(Printed(a), Printed(b[..n]), [Strip(b[n].line)]);
    } else {
      assert a + b == a;
    }
  }
}
