# streams: fan-out and round-robin routing, modelled in Dafny

This project models the two routing primitives of the `streams` crate and
proves what they promise.

- **`MultiWriter`** presents an ordered list of sinks as one writer.
  `write(buf)` makes one complete write (`write_all`) of `buf` to each sink
  in order. It stops at the first sink that fails and otherwise reports
  `buf.len()`. `flush` visits the sinks in the same order and stops at the
  first failure. `copy_many` runs `io::copy` from a reader into such a
  writer.
- **`RoundRobinCopier`** holds an ordered pool of sinks and a cursor. Each
  `copy(reader)` picks the sink under the cursor and moves the cursor on by
  one, modulo the pool size, before any I/O. It then copies the whole
  reader into that one sink.

How the model is built (module `Io`, `io.dfy`):

- A **sink** is an append-only byte log (`seq<bv8>`) plus a behaviour
  oracle. `room` says how many more bytes the sink takes before a write
  fails (`Unlimited` or `Limited(n)`). `flushFails` says whether its flush
  fails.
- `WriteAll` is `write_all`. It appends the whole buffer when it fits.
  Otherwise it appends the strict prefix that fits and fails. An empty
  buffer is never refused, as in the standard loop, which makes no write
  call at all for one.
- A **source** is the sequence of non-empty chunks its reads return,
  followed by `Eof` or `ReadFault`.
- `Io.Copy` is `io::copy` into one sink. It is proved to leave the sink
  exactly as one `write_all` of the source's whole content would.
- Errors are one opaque `Err`, passed through unchanged.
- Which sinks were visited, in what order and with what outcome, is
  recorded as a trace of `Call(sink, ok)`.

Modules: `Io` (`io.dfy`), `MultiWriters` (`multiwriters.dfy`),
`RoundRobinCopiers` (`round_robin_copiers.dfy`). `Scenarios`
(`scenarios.dfy`) restates the crate's unit tests as lemmas.

Behaviour worth knowing:

- When a fan-out write fails, the failing sink keeps a strict prefix of the
  buffer, because its `write_all` gave up part-way
  (src/multiwriters.rs:11). Only the sinks after it are untouched.
- `flush` returns at the first `?` and attempts no later sink
  (src/multiwriters.rs:19).
- The cursor moves on at src/round_robin_copiers.rs:19, before the
  `io::copy` at src/round_robin_copiers.rs:21, so it advances whether or not
  the copy succeeds.

## Model

| member | source | states |
|---|---|---|
| Io.WriteAll | src/multiwriters.rs:11 | A complete write either appends the whole buffer and succeeds, exactly when the sink has room for it, or appends a strict prefix of it and fails. |
| Io.Copy | src/round_robin_copiers.rs:21 | `io::copy` into one sink succeeds iff the source ends cleanly and the sink takes its whole content. The sink ends exactly as one `write_all` of the whole content leaves it, however the reads split that content. On success the log grows by the content and the total equals its length. |
| Io.CopyFromIsWriteAll | src/round_robin_copiers.rs:21 | Specifies `Io.CopyFrom`, the `io::copy` loop, which has no contract of its own. By induction over the chunks, the loop from any chunk on equals one complete write of the remaining content, and the running total ends at the previous total plus that content's length. |
| MultiWriters.Write | src/multiwriters.rs:9-15 | Success iff every sink takes the buffer. On success it reports `|buf|` whatever the number of sinks, and every sink's log is its old log followed by `buf`. With `k` the first refusing sink: sinks before `k` got all of `buf`, sink `k` a strict prefix, and later sinks are unchanged. Every sink's log is its old log plus a prefix of `buf`. The trace visits sinks 0, 1, … in order, each only after all earlier visits succeeded, and stops at `k`. |
| MultiWriters.WriteLoopSpec | src/multiwriters.rs:10-14 | Specifies `MultiWriters.WriteLoop`, the `for` loop of `write`, which has no contract of its own. The loop from sink `i` on leaves sinks before `i` alone. It writes sinks `i..k` once each and leaves sinks after `k` alone. It returns `Ok(|buf|)` iff no sink from `i` on refuses, and records visits `i..k` in order. |
| MultiWriters.WriteToNoSinks | src/multiwriters.rs:10-14 | With no sinks, a write reports the whole buffer length, visits nothing and changes nothing. |
| MultiWriters.Flush | src/multiwriters.rs:17-23 | Flush succeeds iff every sink's flush succeeds. Sinks are flushed in order, and none is attempted after the first failure. |
| MultiWriters.FlushLoopSpec | src/multiwriters.rs:18-22 | Specifies `MultiWriters.FlushLoop`, the `for` loop of `flush`, which has no contract of its own. The loop from sink `i` on returns the error of the first failing sink, visiting exactly the sinks from `i` up to it. |
| MultiWriters.CopyMany | src/multiwriters.rs:26-32 | `copy_many` succeeds iff the reader ends cleanly and every sink takes the whole content. Then every sink's log is its old log followed by the entire content, the total equals the content's length, and the sinks are exactly as one `Write` of the whole content leaves them. In every case each sink has received a prefix of the content. |
| MultiWriters.CopyManyLoopSpec | src/multiwriters.rs:31 | Specifies `MultiWriters.CopyManyLoop`, the `io::copy` loop through the fan-out, which has no contract of its own. By induction over the chunks it gives the success condition, the total, the per-sink result of one complete write of the remaining content, and the prefix property for failed runs. |
| MultiWriters.CopyManyEmptySource | src/multiwriters.rs:26-32 | Copying an empty reader through the fan-out returns 0 and leaves every sink unchanged. |
| RoundRobinCopiers.New | src/round_robin_copiers.rs:9-13 | The pool is kept in the given order and the cursor starts at 0. With at least one sink, the copier satisfies the cursor invariant. |
| RoundRobinCopiers.Copy | src/round_robin_copiers.rs:15-22 | It needs a non-empty pool, because the cursor update divides by the pool size. It keeps the invariant `current < N`. The cursor becomes `(old + 1) % N` whether or not the copy succeeds. Only the sink under the old cursor changes, and it gains a prefix of the source's content. It succeeds iff the source ends cleanly and the sink has room. Then the sink gains the whole content and the return value is its length. |
| RoundRobinCopiers.CopyEmptySource | src/round_robin_copiers.rs:16-21 | Copying an empty reader returns 0 and changes no sink, but the cursor still advances. |
| RoundRobinCopiers.Run | src/round_robin_copiers.rs:15-22 | A run of successive copies keeps the invariant and the pool size. It yields one result per call, and every successful call reports its own source's length. |
| RoundRobinCopiers.RunAdvancesCursor | src/round_robin_copiers.rs:19 | After `M` copies, failed ones included, the cursor is `(start + M) % N`. |
| RoundRobinCopiers.RunCycles | src/round_robin_copiers.rs:16-21 | If every copy in a run succeeds, sink `j`'s log is its old log followed by the contents, in call order, of exactly the calls `i` with `(start + i) % N == j`. The induction step is the helper `CopyExtendsAssigned`. |
| RoundRobinCopiers.RunFromNewCycles | src/round_robin_copiers.rs:9-21 | Starting from a fresh copier, after `M` successful copies sink `j` holds the contents of the calls `i` with `i % N == j`, in call order, and the cursor is `M % N`. |
| RoundRobinCopiers.RunSucceeds | src/round_robin_copiers.rs:21 | Each copy in a run succeeds when every sink is unbounded and every source ends cleanly. |
| Scenarios.MultiWriterTest | src/multiwriters.rs:38-51 | Writing `b"Hello, world!"` to three empty buffers returns 13, and each buffer then holds exactly the payload. |
| Scenarios.CopyManyTest | src/multiwriters.rs:53-62 | `copy_many` of the payload into three empty buffers succeeds, as the test's `unwrap` demands. The lemma also proves more than the test checks: the total is 13 and each buffer holds the payload. |
| Scenarios.RoundRobinCopierTest | src/round_robin_copiers.rs:31-47 | Four copies of the payload over three buffers all return 13. Buffer 0 then holds the payload twice, and buffers 1 and 2 hold it once each. |

## Left out

- `examples/tee.rs` is a command-line front end. It does argument parsing, file opening, stdin/stdout locking and `unwrap` aborts, and has no routing logic of its own.
- `MultiWriter`'s derived `Default` and its struct literal construction carry no logic. `MultiWriter::new`, which `examples/tee.rs` calls, is not part of this model.
- Internals of `io::copy` and `write_all` are abstracted away: the 8 KiB buffer, retrying on `Interrupted`, and the `WriteZero` error. A sink's writes are summarised by the room it has left, and a reader by the chunks its reads return.
- `write_all` called on a `MultiWriter` itself, as the `multi_writer` test does, calls `write` once, since `write` reports the whole length. It is modelled as that one `Write`.
- Io.WriteAll: failures are persistent. Once a sink has refused a write, it has no room left, so a later non-empty write to it fails again. A sink that recovers from a transient error is not modelled.
- Io.WriteAll: an error reported after a sink has accepted the whole buffer is not modelled. The standard loop returns success as soon as every byte is accepted.
- The concrete `io::Error` kinds are replaced by one opaque error.
- The `u64` total of `io::copy` and the `usize` cursor are unbounded integers. The cursor is always below the pool size, so `current + 1` cannot overflow. A total of 2^64 bytes is not a concern of this code.
- Copying with an empty pool panics in `RoundRobinCopier::copy` (src/round_robin_copiers.rs:19), a modulo by zero. It is excluded by the precondition of `RoundRobinCopiers.Copy` rather than modelled as a panic.
- Lifetimes, trait objects, borrowing and thread-safety: sinks are indices into a sequence, and nothing is concurrent.
