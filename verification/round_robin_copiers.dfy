/** `RoundRobinCopier`: a fixed, ordered pool of sinks and a cursor. Each copy
    sends a whole source to the sink under the cursor and moves the cursor on
    by one, modulo the pool size, whether or not the copy succeeds. */
module RoundRobinCopiers {
  import opened Io

  datatype Copier = Copier(sinks: seq<Sink>, current: nat)
  {
    /** The cursor names a sink of the pool. With an empty pool the cursor
        update divides by zero, so a copier is only usable with at least one
        sink; `0 < |sinks|` follows from `current < |sinks|` but is stated
        for readability, and it spares the solver that step wherever the
        pool size is a divisor. */
    predicate Valid()
    {
      0 < |sinks| && current < |sinks|
    }
  }

  /** The copier after one copy, and what that copy returned. */
  datatype Step = Step(copier: Copier, result: IoResult<nat>)

  /** The copier after a run of copies, and what each copy returned, in call
      order. */
  datatype Session = Session(copier: Copier, results: seq<IoResult<nat>>)

  /** `RoundRobinCopier::new`: the pool kept in the order given, the cursor
      on the first sink. */
  function New(sinks: seq<Sink>): (c: Copier)
    ensures c.sinks == sinks && c.current == 0
    ensures 0 < |sinks| ==> c.Valid()
  {
    Copier(sinks, 0)
  }

  /** `RoundRobinCopier::copy`. The cursor moves on by one place modulo the
      pool size whatever the outcome; only the sink that was under the
      cursor is written, and it receives a prefix of the source's content,
      all of it exactly when the copy succeeds. */
  function Copy(c: Copier, src: Source): (s: Step)
    requires c.Valid()
    ensures s.copier.Valid()
    ensures |s.copier.sinks| == |c.sinks|
    ensures s.copier.current == (c.current + 1) % |c.sinks|
    ensures forall j | 0 <= j < |c.sinks| && j != c.current :: s.copier.sinks[j] == c.sinks[j]
    ensures s.result.Ok? <==> src.end == Eof && Accepts(c.sinks[c.current], |Content(src)|)
    ensures s.result.Ok? ==> s.result.value == |Content(src)|
    ensures s.result.Ok? ==> s.copier.sinks[c.current].log == c.sinks[c.current].log + Content(src)
    ensures AppendsPrefix(c.sinks[c.current].log, s.copier.sinks[c.current].log, Content(src))
  {
    var index := c.current;
    var current := (c.current + 1) % |c.sinks|;
    var t := Io.Copy(c.sinks[index], src);
    Step(Copier(c.sinks[index := t.sink], current), t.result)
  }

  /** Copying an empty source reports 0 and changes no sink; the cursor
      still moves on. */
  lemma CopyEmptySource(c: Copier)
    requires c.Valid()
    ensures Copy(c, Source([], Eof)) == Step(Copier(c.sinks, (c.current + 1) % |c.sinks|), Ok(0))
  {
  }

  /** Successive copies of `srcs`, in order, on one copier. */
  function Run(c: Copier, srcs: seq<Source>): (s: Session)
    requires c.Valid()
    ensures s.copier.Valid()
    ensures |s.copier.sinks| == |c.sinks|
    ensures |s.results| == |srcs|
    ensures forall i | 0 <= i < |srcs| && s.results[i].Ok? :: s.results[i].value == |Content(srcs[i])|
    decreases |srcs|
  {
    if |srcs| == 0 then Session(c, [])
    else
      var before := Run(c, srcs[..|srcs| - 1]);
      var step := Copy(before.copier, srcs[|srcs| - 1]);
      Session(step.copier, before.results + [step.result])
  }

  /** The contents, concatenated in call order, of those calls among `srcs`
      that a copier whose cursor starts at `start` on a pool of `n` sinks
      sends to sink `j`: call `i` goes to sink `(start + i) % n`. */
  function Assigned(srcs: seq<Source>, start: nat, n: nat, j: nat): seq<Byte>
    requires 0 < n
    decreases |srcs|
  {
    if |srcs| == 0 then []
    else
      var i := |srcs| - 1;
      Assigned(srcs[..i], start, n, j) + (if (start + i) % n == j then Content(srcs[i]) else [])
  }

  lemma MulAtLeastOnce(a: nat, n: nat)
    requires 1 <= a
    ensures a * n >= n
  {
  }

  /** Euclidean division has one remainder. */
  lemma ModUnique(x: nat, n: nat, q: nat, r: nat)
    requires r < n && x == q * n + r
    ensures x % n == r
  {
    var q', r' := x / n, x % n;
    assert x == q' * n + r';
    if q' < q {
      MulAtLeastOnce(q - q', n);
    } else if q < q' {
      MulAtLeastOnce(q' - q, n);
    }
  }

  lemma ModSuccessor(a: nat, n: nat)
    requires 0 < n
    ensures (a % n + 1) % n == (a + 1) % n
  {
    var q, r := a / n, a % n;
    if r + 1 < n {
      ModUnique(r + 1, n, 0, r + 1);
      ModUnique(a + 1, n, q, r + 1);
    } else {
      ModUnique(r + 1, n, 1, 0);
      assert a + 1 == (q + 1) * n + 0;
      ModUnique(a + 1, n, q + 1, 0);
    }
  }

  /** After `M` copies the cursor has moved on `M` places, failed copies
      included. */
  lemma {:induction false} RunAdvancesCursor(c: Copier, srcs: seq<Source>)
    requires c.Valid()
    ensures Run(c, srcs).copier.current == (c.current + |srcs|) % |c.sinks|
    decreases |srcs|
  {
    if |srcs| > 0 {
      RunAdvancesCursor(c, srcs[..|srcs| - 1]);
      ModSuccessor(c.current + |srcs| - 1, |c.sinks|);
    }
  }

  /** The cycling property: when every copy of a run succeeds, sink `j`'s
      log has grown by the contents of exactly the calls assigned to it by
      rotation, in call order. */
  lemma {:induction false} RunCycles(c: Copier, srcs: seq<Source>, j: nat)
    requires c.Valid() && j < |c.sinks|
    requires forall i | 0 <= i < |srcs| :: Run(c, srcs).results[i].Ok?
    ensures Run(c, srcs).copier.sinks[j].log == c.sinks[j].log + Assigned(srcs, c.current, |c.sinks|, j)
    decreases |srcs|
  {
    if |srcs| == 0 {
      assert c.sinks[j].log + [] == c.sinks[j].log;
    } else {
      var i := |srcs| - 1;
      var before := Run(c, srcs[..i]);
      assert before.results == Run(c, srcs).results[..i];
      RunCycles(c, srcs[..i], j);
      RunAdvancesCursor(c, srcs[..i]);
      var step := Copy(before.copier, srcs[i]);
      assert step.result == Run(c, srcs).results[i];
      CopyExtendsAssigned(c.sinks[j].log, srcs, c.current, |c.sinks|, j,
                          before.copier.sinks[j].log, step.copier.sinks[j].log, before.copier.current);
    }
  }

  /** One more successful copy extends sink `j`'s share of the first `M - 1`
      calls to its share of `M` calls. */
  lemma CopyExtendsAssigned(log0: seq<Byte>, srcs: seq<Source>, start: nat, n: nat, j: nat,
                              before: seq<Byte>, after: seq<Byte>, target: nat)
    requires 0 < n && 0 < |srcs|
    requires target == (start + |srcs| - 1) % n
    requires before == log0 + Assigned(srcs[..|srcs| - 1], start, n, j)
    requires after == if j == target then before + Content(srcs[|srcs| - 1]) else before
    ensures after == log0 + Assigned(srcs, start, n, j)
  {
    var i := |srcs| - 1;
    var earlier := Assigned(srcs[..i], start, n, j);
    if j == target {
      assert log0 + earlier + Content(srcs[i]) == log0 + (earlier + Content(srcs[i]));
    } else {
      assert earlier + [] == earlier;
    }
  }

  /** Starting from `New`, call `i` goes to sink `i % N`. */
  lemma RunFromNewCycles(sinks: seq<Sink>, srcs: seq<Source>, j: nat)
    requires j < |sinks|
    requires forall i | 0 <= i < |srcs| :: Run(New(sinks), srcs).results[i].Ok?
    ensures Run(New(sinks), srcs).copier.sinks[j].log == sinks[j].log + Assigned(srcs, 0, |sinks|, j)
    ensures Run(New(sinks), srcs).copier.current == |srcs| % |sinks|
  {
    var c := New(sinks);
    RunCycles(c, srcs, j);
    RunAdvancesCursor(c, srcs);
    assert c.current + |srcs| == |srcs|;
  }

  predicate Unbounded(sinks: seq<Sink>)
  {
    forall j | 0 <= j < |sinks| :: sinks[j].room == Unlimited
  }

  /** Sinks without a byte limit, fed sources that end cleanly, make every
      copy of a run succeed. */
  lemma {:induction false} RunSucceeds(c: Copier, srcs: seq<Source>)
    requires c.Valid() && Unbounded(c.sinks)
    requires forall i | 0 <= i < |srcs| :: srcs[i].end == Eof
    ensures Unbounded(Run(c, srcs).copier.sinks)
    ensures forall i | 0 <= i < |srcs| :: Run(c, srcs).results[i].Ok?
    decreases |srcs|
  {
    if |srcs| > 0 {
      var i := |srcs| - 1;
      RunSucceeds(c, srcs[..i]);
      var before := Run(c, srcs[..i]);
      var cur := before.copier.current;
      assert Io.Copy(before.copier.sinks[cur], srcs[i]).sink.room == Unlimited;
    }
  }
}
