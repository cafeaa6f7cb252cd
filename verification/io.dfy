/** The stream capabilities both routing primitives are written against, and
    the two standard-library loops they lean on.

    A sink is modelled by the bytes it has accepted so far (an append-only
    log) together with an oracle saying how it behaves: how many more bytes
    it accepts before a write fails, and whether a flush fails. A source is
    the sequence of non-empty chunks its successive reads return, followed by
    either a clean end of stream or a read error.

    `WriteAll` is the complete write every sink receives (the standard
    `write_all` loop) and `Copy` is the read-until-exhausted loop of
    `io::copy` into a single sink. */
module Io {

  type Byte = bv8

  /** What one successful read returns. A read of zero bytes signals the end
      of the stream, so a chunk is never empty. */
  type Chunk = c: seq<Byte> | |c| > 0 witness [0]

  /** The result of an I/O operation; the error is opaque and is passed
      through unchanged, so it carries no payload here. */
  datatype IoResult<T> = Ok(value: T) | Err

  /** How a source behaves once its chunks are used up. */
  datatype End = Eof | ReadFault

  datatype Source = Source(chunks: seq<Chunk>, end: End)

  /** How many more bytes a sink takes before one of its writes fails. */
  datatype Room = Unlimited | Limited(bytes: nat)

  datatype Sink = Sink(log: seq<Byte>, room: Room, flushFails: bool)

  /** The outcome of one complete write to one sink. */
  datatype Delivery = Delivery(sink: Sink, ok: bool)

  /** The outcome of one `io::copy` into one sink. */
  datatype Transfer = Transfer(sink: Sink, result: IoResult<nat>)

  function Concat(chunks: seq<Chunk>): seq<Byte>
  {
    if |chunks| == 0 then [] else chunks[0] + Concat(chunks[1..])
  }

  /** Every byte the source yields before it ends, in order. */
  function Content(src: Source): seq<Byte>
  {
    Concat(src.chunks)
  }

  /** `after` is `before` followed by some prefix (possibly all) of `buf`. */
  predicate AppendsPrefix(before: seq<Byte>, after: seq<Byte>, buf: seq<Byte>)
  {
    before <= after && after <= before + buf
  }

  predicate Accepts(s: Sink, n: nat)
  {
    s.room.Unlimited? || n <= s.room.bytes
  }

  /** A complete write of `buf`: either the whole buffer is appended, or the
      sink takes what room it has left, a strict prefix, and the write fails.
      An empty buffer is never refused. */
  function WriteAll(s: Sink, buf: seq<Byte>): (d: Delivery)
    ensures d.ok <==> Accepts(s, |buf|)
    ensures d.ok ==> d.sink.log == s.log + buf
    ensures !d.ok ==> AppendsPrefix(s.log, d.sink.log, buf) && d.sink.log < s.log + buf
    ensures d.sink.flushFails == s.flushFails
  {
    match s.room
    case Unlimited => Delivery(s.(log := s.log + buf), true)
    case Limited(n) =>
      if |buf| <= n then Delivery(Sink(s.log + buf, Limited(n - |buf|), s.flushFails), true)
      else Delivery(Sink(s.log + buf[..n], Limited(0), s.flushFails), false)
  }

  /** The `io::copy` loop from chunk `i` on, `total` bytes already moved. */
  function CopyFrom(s: Sink, src: Source, i: nat, total: nat): Transfer
    requires i <= |src.chunks|
    decreases |src.chunks| - i
  {
    if i == |src.chunks| then
      Transfer(s, if src.end == Eof then Ok(total) else Err)
    else
      var d := WriteAll(s, src.chunks[i]);
      if d.ok then CopyFrom(d.sink, src, i + 1, total + |src.chunks[i]|)
      else Transfer(d.sink, Err)
  }

  /** `io::copy(reader, writer)` into a single sink. However the source
      splits its content into reads, the sink ends exactly as one complete
      write of the whole content would leave it. */
  function Copy(s: Sink, src: Source): (t: Transfer)
    ensures t.sink == WriteAll(s, Content(src)).sink
    ensures t.result.Ok? <==> src.end == Eof && Accepts(s, |Content(src)|)
    ensures t.result.Ok? ==> t.result.value == |Content(src)| && t.sink.log == s.log + Content(src)
    ensures AppendsPrefix(s.log, t.sink.log, Content(src))
  {
    CopyFromIsWriteAll(s, src, 0, 0);
    CopyFrom(s, src, 0, 0)
  }

  lemma ConcatFrom(chunks: seq<Chunk>, i: nat)
    requires i < |chunks|
    ensures Concat(chunks[i..]) == chunks[i] + Concat(chunks[i + 1..])
  {
  }

  /** Two complete writes in a row, the first accepted, act as one complete
      write of both buffers. */
  lemma WriteAllThenWriteAll(s: Sink, a: seq<Byte>, b: seq<Byte>)
    requires Accepts(s, |a|)
    ensures WriteAll(WriteAll(s, a).sink, b) == WriteAll(s, a + b)
  {
  }

  /** Once a complete write is refused, whatever would have followed it
      never reaches the sink. */
  lemma WriteAllRefusedPrefix(s: Sink, a: seq<Byte>, b: seq<Byte>)
    requires !Accepts(s, |a|)
    ensures WriteAll(s, a + b) == WriteAll(s, a)
  {
  }

  lemma {:induction false} CopyFromIsWriteAll(s: Sink, src: Source, i: nat, total: nat)
    requires i <= |src.chunks|
    ensures var t := CopyFrom(s, src, i, total);
      var rest := Concat(src.chunks[i..]);
      && t.sink == WriteAll(s, rest).sink
      && (t.result.Ok? <==> src.end == Eof && Accepts(s, |rest|))
      && (t.result.Ok? ==> t.result.value == total + |rest|)
    decreases |src.chunks| - i
  {
    if i == |src.chunks| {
      assert src.chunks[i..] == [];
      assert s.log + [] == s.log;
    } else {
      var c := src.chunks[i];
      var more := Concat(src.chunks[i + 1..]);
      ConcatFrom(src.chunks, i);
      var d := WriteAll(s, c);
      if d.ok {
        CopyFromIsWriteAll(d.sink, src, i + 1, total + |c|);
        WriteAllThenWriteAll(s, c, more);
      } else {
        WriteAllRefusedPrefix(s, c, more);
      }
    }
  }
}
