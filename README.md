# BufferNextMessage: the batch-assembly drain strategy of buffer-slayer

buffer-slayer groups asynchronously submitted messages by key into bounded
queues and periodically flushes them to a sink in batches. The batch for one
flush is assembled by `BufferNextMessage`: the bounded queue offers it its
messages one at a time through `accept`, and `drain` hands back the batch.

`accept` appends the offered message to the buffer until either

- the buffer holds `maxSize` messages, which latches `bufferFull`, so every
  later offer is rejected without any change; or
- in strict (`onlyAcceptSame`) mode, a message arrives whose key differs from
  the key recorded from the first accepted message; it is rejected and
  `ofTheSameKey` is cleared.

`drain` returns the buffered messages in the order they were accepted and
resets all latched state, so the same object assembles the next batch. On an
empty buffer it returns an empty batch and changes nothing.

The project has four modules:

- `Messages` (messages.dfy): messages and their keys. Keys are the integer
  keys of the test fixture `TestMessage.Key`, whose `equals` compares the
  integers; Dafny's equality on `MessageKey` is that comparison.
- `BatchPolicy` (batch_policy.dfy): the assembler's state as a value
  (`Snapshot`), `Accept` and `Drain` as functions from old state to new, the
  object invariant `Consistent`, the batches the policy allows
  (`Admissible`), and the lemmas about them.
- `Buffering` (buffer_next_message.dfy): the class `BufferNextMessage` with
  the source's mutable fields (`buffer`, `bufferFull`, `lastMessageKey`,
  `ofTheSameKey`) and constants (`maxSize`, `onlyAcceptSame`). Its methods
  update the fields in place. They are proved to agree with the functions of
  `BatchPolicy` and to keep `Consistent`.
- `Feeding` (feeding.dfy): the caller's protocol, which offers messages in
  order and stops at the first rejection. It is proved to take the longest
  prefix of the queue that forms an admissible batch.

`maxSize` is not required to be positive, because the source does not
require it. With `maxSize <= 0` the `==` test at line 39 never succeeds, so
the buffer is unbounded. The invariant covers that case too. The size bound
is stated for `maxSize >= 1`.

`accept` (BufferNextMessage.java:25-41) never reads `ofTheSameKey`. A cleared
flag therefore does not block a later message that has the recorded key; that
message is still accepted (`MixedLatchDoesNotBlock`). The flag is cleared only
by a strict-mode rejection for a different key (`BatchPolicy.Accept`), and
when feeding stops early the state records why (`FeedStopIsRecorded`).

## Model

| member | source | states |
|---|---|---|
| Messages.KeyEquals | boundedqueue/src/test/java/io/bufferslayer/TestMessage.java:30-39 | two messages' keys are equal exactly when their integer keys are equal |
| BatchPolicy.Accept | boundedqueue/src/main/java/io/bufferslayer/BufferNextMessage.java:25-41 | a latched `bufferFull` rejects and leaves every field unchanged; the answer is true exactly when the message was appended to the end of the buffer, with earlier contents untouched; a rejection leaves buffer and full flag alone; an append latches "full" exactly when the buffer reaches `maxSize`; outside strict mode the answer is "not full" and the key and same-key flag never change; in strict mode a different key is rejected and only `ofTheSameKey` is cleared; an append leaves `ofTheSameKey` unchanged and in strict mode records the message's key if none was recorded, keeping the recorded one otherwise; `ofTheSameKey` changes only on that different-key rejection |
| BatchPolicy.Drain | boundedqueue/src/main/java/io/bufferslayer/BufferNextMessage.java:43-53 | the batch is the old buffer in order and the buffer is emptied; an empty buffer leaves the state unchanged; a non-empty one resets every latch to the initial state |
| BatchPolicy.InitialConsistent | boundedqueue/src/main/java/io/bufferslayer/BufferNextMessage.java:13-22 | the freshly constructed state satisfies the invariant for any settings |
| BatchPolicy.AdmissiblePrefix | boundedqueue/src/main/java/io/bufferslayer/BufferNextMessage.java:29-39 | every prefix of an allowed batch (size bound, single key in strict mode) is allowed |
| BatchPolicy.AcceptIffAdmissible | boundedqueue/src/main/java/io/bufferslayer/BufferNextMessage.java:26-40 | from a consistent state, `accept` answers true exactly when the buffer plus the message is still an allowed batch |
| BatchPolicy.AcceptPreservesConsistent | boundedqueue/src/main/java/io/bufferslayer/BufferNextMessage.java:25-41 | `accept` keeps the invariant tying `bufferFull`, `lastMessageKey` and `ofTheSameKey` to the buffer |
| BatchPolicy.StrictBufferHasRecordedKey | boundedqueue/src/main/java/io/bufferslayer/BufferNextMessage.java:29-37 | in strict mode a key is recorded exactly when the buffer is non-empty; it is the first buffered message's key, and every buffered message has it |
| BatchPolicy.SizeBound | boundedqueue/src/main/java/io/bufferslayer/BufferNextMessage.java:38-39 | with `maxSize >= 1` the buffer never exceeds `maxSize`, and `bufferFull` holds exactly when it has `maxSize` messages |
| BatchPolicy.MixedLatchImpliesRecordedKey | boundedqueue/src/main/java/io/bufferslayer/BufferNextMessage.java:31-35 | `ofTheSameKey == false` implies strict mode, a recorded key and a non-empty buffer |
| BatchPolicy.MixedLatchDoesNotBlock | boundedqueue/src/main/java/io/bufferslayer/BufferNextMessage.java:29-40 | after a rejection for a different key, a message with the recorded key is still accepted while the buffer is not full, and the cleared flag stays cleared |
| BatchPolicy.DrainResets | boundedqueue/src/main/java/io/bufferslayer/BufferNextMessage.java:43-53 | on a consistent state, drain always leaves the initial state, empty buffer or not, and that state is consistent |
| BatchPolicy.DrainTwice | boundedqueue/src/main/java/io/bufferslayer/BufferNextMessage.java:44-46 | a second drain right after a drain returns an empty batch and leaves the initial state |
| Buffering.BufferNextMessage.constructor | boundedqueue/src/main/java/io/bufferslayer/BufferNextMessage.java:11-22 | stores the two settings; empty buffer, `bufferFull` false, no recorded key, `ofTheSameKey` true; invariant established |
| Buffering.BufferNextMessage.Accept | boundedqueue/src/main/java/io/bufferslayer/BufferNextMessage.java:24-41 | the new fields and the answer are those of `BatchPolicy.Accept` on the old fields; the answer is true exactly when the message was appended, and exactly when the longer buffer is an allowed batch; a full buffer changes nothing; outside strict mode key and flag are untouched; the invariant is kept |
| Buffering.BufferNextMessage.Drain | boundedqueue/src/main/java/io/bufferslayer/BufferNextMessage.java:43-53 | returns the old buffer in order and leaves the initial state, agreeing with `BatchPolicy.Drain`; the invariant is kept |
| Feeding.Feed | boundedqueue/src/main/java/io/bufferslayer/BufferNextMessage.java:25-41 | offering messages in order until the first rejection appends exactly a prefix of them to the buffer |
| Feeding.FeedTakesLongestAdmissiblePrefix | boundedqueue/src/main/java/io/bufferslayer/BufferNextMessage.java:25-41 | the messages taken extend the buffer to an allowed batch; taking any more would break the size bound or the single-key rule; the invariant holds afterwards |
| Feeding.FeedStopIsRecorded | boundedqueue/src/main/java/io/bufferslayer/BufferNextMessage.java:26-39 | when offering stops before the queue is exhausted, the assembler is either full or, in strict mode only, has `ofTheSameKey` cleared |
| Feeding.FeedFromInitial | boundedqueue/src/main/java/io/bufferslayer/BufferNextMessage.java:29-52 | from a fresh or drained assembler a non-empty queue gives up at least its head and at most `maxSize` messages; in strict mode they all share the head's key; drain then returns exactly those messages in order |
| Feeding.StrictOrderStopsAtKeyChange | boundedqueue/src/main/java/io/bufferslayer/BufferNextMessage.java:29-36 | strict mode with keys 1, 1, 2, 1 yields the batch of the first two messages and clears `ofTheSameKey` |
| Feeding.LenientStopsWhenFull | boundedqueue/src/main/java/io/bufferslayer/BufferNextMessage.java:38-39 | without strict mode, `maxSize` 2 and mixed keys, the first two messages are taken and "full" is latched |
| Feeding.StrictOrderClient | boundedqueue/src/main/java/io/bufferslayer/BufferNextMessage.java:29-53 | the same strict scenario on the object: the third offer is rejected, the mixed-key flag is set, drain returns the first two messages, and a second drain returns nothing |

## Left out

- The bounded queue (`SizeBoundedQueue`), the queue pool (`QueueRecycler`, an interface only), the reporter, promises and the sink are not part of this model. The caller is modelled only as "offer messages in order until `accept` returns false" (`Feeding.Feed`). Repeated drains of one queue into successive batches are not modelled.
- `QueueRecycler.lease`, `recycle`, `shrink`, `clear` and `elements`: no implementation among the files, and the interface is blocking and concurrent.
- The JDBC integration test: it runs a real database, threads and timers.
- Keys: only the integer-equality key of the `TestMessage.Key` fixture is modelled. Other `MessageKey` classes and that fixture's unchecked cast in `equals` are not modelled.
- Java's 32-bit `int` for `maxSize` and `buffer.size()`: integers are unbounded here. A buffer with more than 2^31 - 1 messages cannot arise with a positive `int` `maxSize`.
- Object identity of the returned list: `drain` returns a fresh `ArrayList` copy, or a shared immutable empty list. The model returns the batch as a sequence value.
- Null messages and null keys: messages and keys here are never null. In the source, `accept(null)` in strict mode throws a NullPointerException at line 30, and a null key leaves `lastMessageKey` null at line 32, so the next message's key is recorded instead of the first one's.
- Message identifiers and payloads are carried but never inspected.
