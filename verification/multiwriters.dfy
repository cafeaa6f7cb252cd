/** `MultiWriter`: many sinks presented as one. A write is replicated to every
    sink in order, as one complete write each, and stops at the first sink
    that refuses it; a flush visits the sinks in the same order and stops at
    the first one that fails; `copy_many` pumps a whole source through the
    fan-out. */
module MultiWriters {
  import opened Io

  /** One visit to one sink during a fan-out: which sink, and whether the
      operation on it succeeded. */
  datatype Call = Call(sink: nat, ok: bool)

  datatype Fanout = Fanout(sinks: seq<Sink>, trace: seq<Call>, result: IoResult<nat>)

  datatype Flushed = Flushed(trace: seq<Call>, result: IoResult<()>)

  datatype Copied = Copied(sinks: seq<Sink>, result: IoResult<nat>)

  /** The first index at or after `from` whose outcome is a failure, or
      `|oks|` when there is none. */
  function FirstFailure(oks: seq<bool>, from: nat): (k: nat)
    requires from <= |oks|
    ensures from <= k <= |oks|
    ensures forall j | from <= j < k :: oks[j]
    ensures k < |oks| ==> !oks[k]
    decreases |oks| - from
  {
    if from == |oks| || !oks[from] then from else FirstFailure(oks, from + 1)
  }

  /** The shape of a fail-fast pass over sinks whose outcomes are `oks`:
      sink `t` is the `t`-th one visited, every visit but the one to the
      first failing sink succeeds, and no sink after it is visited. */
  predicate VisitsInOrder(trace: seq<Call>, oks: seq<bool>)
  {
    var k := FirstFailure(oks, 0);
    && |trace| == (if k < |oks| then k + 1 else |oks|)
    && forall t | 0 <= t < |trace| :: trace[t] == Call(t, t < k)
  }

  /** Whether each sink takes a complete write of `n` bytes. */
  function Acceptance(sinks: seq<Sink>, n: nat): (oks: seq<bool>)
    ensures |oks| == |sinks|
    ensures forall j | 0 <= j < |sinks| :: oks[j] == Accepts(sinks[j], n)
  {
    seq(|sinks|, j requires 0 <= j < |sinks| => Accepts(sinks[j], n))
  }

  /** Whether each sink's flush succeeds. */
  function FlushOutcomes(sinks: seq<Sink>): (oks: seq<bool>)
    ensures |oks| == |sinks|
    ensures forall j | 0 <= j < |sinks| :: oks[j] == !sinks[j].flushFails
  {
    seq(|sinks|, j requires 0 <= j < |sinks| => !sinks[j].flushFails)
  }

  /** The `for writer in writers { writer.write_all(buf)? }` loop, from
      sink `i` on. */
  function WriteLoop(sinks: seq<Sink>, buf: seq<Byte>, i: nat): Fanout
    requires i <= |sinks|
    decreases |sinks| - i
  {
    if i == |sinks| then Fanout(sinks, [], Ok(|buf|))
    else
      var d := WriteAll(sinks[i], buf);
      var sinks' := sinks[i := d.sink];
      if d.ok then
        var r := WriteLoop(sinks', buf, i + 1);
        r.(trace := [Call(i, true)] + r.trace)
      else Fanout(sinks', [Call(i, false)], Err)
  }

  /** `MultiWriter::write`. On success every sink's log has grown by exactly
      `buf` and the whole length is reported, however many sinks there are.
      Otherwise, with `k` the first sink that refuses the buffer: sinks
      before `k` got all of it, sink `k` a strict prefix, and sinks after
      `k` were not touched. */
  function Write(sinks: seq<Sink>, buf: seq<Byte>): (r: Fanout)
    ensures |r.sinks| == |sinks|
    ensures r.result.Ok? <==> forall j | 0 <= j < |sinks| :: Accepts(sinks[j], |buf|)
    ensures r.result.Ok? ==> r.result.value == |buf|
    ensures r.result.Ok? ==> forall j | 0 <= j < |sinks| :: r.sinks[j].log == sinks[j].log + buf
    ensures var k := FirstFailure(Acceptance(sinks, |buf|), 0);
      && (forall j | 0 <= j <= k && j < |sinks| :: r.sinks[j] == WriteAll(sinks[j], buf).sink)
      && (forall j | 0 <= j < k && j < |sinks| :: r.sinks[j].log == sinks[j].log + buf)
      && (k < |sinks| ==> r.sinks[k].log < sinks[k].log + buf)
      && (forall j | k < j < |sinks| :: r.sinks[j] == sinks[j])
    ensures forall j | 0 <= j < |sinks| :: AppendsPrefix(sinks[j].log, r.sinks[j].log, buf)
    ensures VisitsInOrder(r.trace, Acceptance(sinks, |buf|))
  {
    WriteLoopSpec(sinks, buf, 0);
    WriteLoop(sinks, buf, 0)
  }

  /** `MultiWriter::flush`: succeeds exactly when every sink's flush does,
      visits the sinks in order, and attempts no sink after the first one
      that fails. */
  function Flush(sinks: seq<Sink>): (r: Flushed)
    ensures r.result.Ok? <==> forall j | 0 <= j < |sinks| :: !sinks[j].flushFails
    ensures VisitsInOrder(r.trace, FlushOutcomes(sinks))
  {
    FlushLoopSpec(sinks, 0);
    FlushLoop(sinks, 0)
  }

  /** The `for writer in writers { writer.flush()? }` loop, from sink `i`
      on. Flushing changes no log. */
  function FlushLoop(sinks: seq<Sink>, i: nat): Flushed
    requires i <= |sinks|
    decreases |sinks| - i
  {
    if i == |sinks| then Flushed([], Ok(()))
    else if sinks[i].flushFails then Flushed([Call(i, false)], Err)
    else
      var r := FlushLoop(sinks, i + 1);
      r.(trace := [Call(i, true)] + r.trace)
  }

  /** The `io::copy` loop through the fan-out from chunk `i` on, `total`
      bytes already moved: each chunk read becomes one `Write`. */
  function CopyManyLoop(sinks: seq<Sink>, src: Source, i: nat, total: nat): Copied
    requires i <= |src.chunks|
    decreases |src.chunks| - i
  {
    if i == |src.chunks| then
      Copied(sinks, if src.end == Eof then Ok(total) else Err)
    else
      var w := Write(sinks, src.chunks[i]);
      if w.result.Ok? then CopyManyLoop(w.sinks, src, i + 1, total + |src.chunks[i]|)
      else Copied(w.sinks, Err)
  }

  /** `copy_many(reader, writers)`. It succeeds exactly when the source ends
      cleanly and every sink takes its whole content; then every sink's log
      has grown by that content, the total reported is its length, and the
      sinks are exactly as one `Write` of the whole content leaves them. In
      every case each sink has received some prefix of the content. */
  function CopyMany(sinks: seq<Sink>, src: Source): (r: Copied)
    ensures |r.sinks| == |sinks|
    ensures r.result.Ok? <==>
      src.end == Eof && forall j | 0 <= j < |sinks| :: Accepts(sinks[j], |Content(src)|)
    ensures r.result.Ok? ==> r.result.value == |Content(src)|
    ensures r.result.Ok? ==> forall j | 0 <= j < |sinks| :: r.sinks[j].log == sinks[j].log + Content(src)
    ensures r.result.Ok? ==> r.sinks == Write(sinks, Content(src)).sinks
    ensures forall j | 0 <= j < |sinks| :: AppendsPrefix(sinks[j].log, r.sinks[j].log, Content(src))
  {
    CopyManyLoopSpec(sinks, src, 0, 0);
    var r := CopyManyLoop(sinks, src, 0, 0);
    var w := Write(sinks, Content(src));
    assert r.result.Ok? ==> r.sinks == w.sinks by {
      if r.result.Ok? {
        assert forall j | 0 <= j < |sinks| :: r.sinks[j] == w.sinks[j];
      }
    }
    r
  }

  /** A `MultiWriter` over no sinks swallows any buffer: it reports the
      whole length and has nothing to change. */
  lemma WriteToNoSinks(buf: seq<Byte>)
    ensures Write([], buf) == Fanout([], [], Ok(|buf|))
  {
  }

  /** Copying an empty source through the fan-out reports 0 and leaves every
      sink exactly as it was. */
  lemma CopyManyEmptySource(sinks: seq<Sink>)
    ensures CopyMany(sinks, Source([], Eof)) == Copied(sinks, Ok(0))
  {
  }

  /** The first failure from `from` on looks only at outcomes from `from`
      on. */
  lemma FirstFailureLooksAhead(a: seq<bool>, b: seq<bool>, from: nat)
    requires from <= |a| == |b|
    requires forall j | from <= j < |a| :: a[j] == b[j]
    ensures FirstFailure(a, from) == FirstFailure(b, from)
    decreases |a| - from
  {
  }

  lemma {:induction false} WriteLoopSpec(sinks: seq<Sink>, buf: seq<Byte>, i: nat)
    requires i <= |sinks|
    ensures var r := WriteLoop(sinks, buf, i);
      var k := FirstFailure(Acceptance(sinks, |buf|), i);
      && |r.sinks| == |sinks|
      && (forall j | 0 <= j < |sinks| ::
            r.sinks[j] == if j < i || k < j then sinks[j] else WriteAll(sinks[j], buf).sink)
      && r.result == (if k == |sinks| then Ok(|buf|) else Err)
      && |r.trace| == (if k < |sinks| then k + 1 else |sinks|) - i
      && (forall t | 0 <= t < |r.trace| :: r.trace[t] == Call(i + t, i + t < k))
    decreases |sinks| - i
  {
    var oks := Acceptance(sinks, |buf|);
    if i < |sinks| {
      var d := WriteAll(sinks[i], buf);
      var sinks' := sinks[i := d.sink];
      if d.ok {
        FirstFailureLooksAhead(oks, Acceptance(sinks', |buf|), i + 1);
        WriteLoopSpec(sinks', buf, i + 1);
      }
    }
  }

  lemma {:induction false} FlushLoopSpec(sinks: seq<Sink>, i: nat)
    requires i <= |sinks|
    ensures var r := FlushLoop(sinks, i);
      var k := FirstFailure(FlushOutcomes(sinks), i);
      && r.result == (if k == |sinks| then Ok(()) else Err)
      && |r.trace| == (if k < |sinks| then k + 1 else |sinks|) - i
      && (forall t | 0 <= t < |r.trace| :: r.trace[t] == Call(i + t, i + t < k))
    decreases |sinks| - i
  {
    if i < |sinks| && !sinks[i].flushFails {
      FlushLoopSpec(sinks, i + 1);
    }
  }

  /** What the `io::copy` loop through the fan-out promises from chunk `i`
      on, given `total` bytes already moved. */
  predicate CopyManyLoopMeets(sinks: seq<Sink>, rest: seq<Byte>, end: End, total: nat, r: Copied)
  {
    && |r.sinks| == |sinks|
    && (r.result.Ok? <==> end == Eof && forall j | 0 <= j < |sinks| :: Accepts(sinks[j], |rest|))
    && (r.result.Ok? ==> r.result.value == total + |rest|)
    && (r.result.Ok? ==> forall j | 0 <= j < |sinks| :: r.sinks[j] == WriteAll(sinks[j], rest).sink)
    && (forall j | 0 <= j < |sinks| :: AppendsPrefix(sinks[j].log, r.sinks[j].log, rest))
  }

  lemma {:induction false} CopyManyLoopSpec(sinks: seq<Sink>, src: Source, i: nat, total: nat)
    requires i <= |src.chunks|
    ensures CopyManyLoopMeets(sinks, Concat(src.chunks[i..]), src.end, total, CopyManyLoop(sinks, src, i, total))
    decreases |src.chunks| - i
  {
    if i == |src.chunks| {
      assert src.chunks[i..] == [];
      forall j | 0 <= j < |sinks|
        ensures WriteAll(sinks[j], []).sink == sinks[j]
      {
        assert sinks[j].log + [] == sinks[j].log;
      }
    } else {
      var c := src.chunks[i];
      var more := Concat(src.chunks[i + 1..]);
      ConcatFrom(src.chunks, i);
      var w := Write(sinks, c);
      if w.result.Ok? {
        CopyManyLoopSpec(w.sinks, src, i + 1, total + |c|);
        CopyManyAfterAcceptedChunk(sinks, c, more, src.end, total, CopyManyLoop(w.sinks, src, i + 1, total + |c|));
      } else {
        CopyManyAfterRefusedChunk(sinks, c, more, src.end, total);
      }
    }
  }

  /** A chunk every sink took, followed by the rest of the loop, meets the
      promise for the chunk and the rest together. */
  lemma CopyManyAfterAcceptedChunk(sinks: seq<Sink>, c: seq<Byte>, more: seq<Byte>, end: End, total: nat, r: Copied)
    requires Write(sinks, c).result.Ok?
    requires CopyManyLoopMeets(Write(sinks, c).sinks, more, end, total + |c|, r)
    ensures CopyManyLoopMeets(sinks, c + more, end, total, r)
  {
  }

  /** A chunk some sink refused ends the loop with an error, each sink
      holding a prefix of the chunk. */
  lemma CopyManyAfterRefusedChunk(sinks: seq<Sink>, c: seq<Byte>, more: seq<Byte>, end: End, total: nat)
    requires Write(sinks, c).result.Err?
    ensures CopyManyLoopMeets(sinks, c + more, end, total, Copied(Write(sinks, c).sinks, Err))
  {
  }
}
