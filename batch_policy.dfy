/**
 * The batch-assembly policy of `BufferNextMessage`, stated on values.
 *
 * A `Snapshot` is the whole mutable state of one assembler: the buffered
 * batch, the latched "full" flag, the key recorded from the first accepted
 * message (strict mode only) and the "all of the same key" flag that a
 * rejection for a different key clears. `Accept` and `Drain` are the two
 * operations as functions from the old state to the new one; the class in
 * module `Buffering` is proved to follow them.
 */
module BatchPolicy {
  import opened Wrappers
  import opened Messages

  /** The two settings fixed at construction: the batch size and strict (same-key-only) mode. */
  datatype Config = Config(maxSize: int, onlyAcceptSame: bool)

  /** The four mutable fields of one assembler. */
  datatype Snapshot = Snapshot(
    buffer: seq<Message>,
    bufferFull: bool,
    lastMessageKey: Option<MessageKey>,
    ofTheSameKey: bool)

  /** What `accept` leaves behind and what it answers. */
  datatype Step = Step(after: Snapshot, accepted: bool)

  /** What `drain` leaves behind and the batch it hands back. */
  datatype Drained = Drained(after: Snapshot, batch: seq<Message>)

  /** The state of a newly built assembler, and of one that has just been drained. */
  const Initial: Snapshot := Snapshot([], false, None, true)

  /**
   * A batch the policy allows: no longer than `maxSize` when `maxSize` is
   * positive (a non-positive size never latches "full", so it bounds nothing),
   * and, in strict mode, made of messages that all share the first one's key.
   */
  predicate Admissible(c: Config, batch: seq<Message>)
  {
    && (c.maxSize >= 1 ==> |batch| <= c.maxSize)
    && (c.onlyAcceptSame ==> forall i :: 0 <= i < |batch| ==> AsMessageKey(batch[i]) == AsMessageKey(batch[0]))
  }

  /**
   * The invariant every reachable state keeps: the buffer is an admissible
   * batch; "full" is latched exactly when the buffer is non-empty and has
   * reached `maxSize`; the recorded key is the first buffered message's key in
   * strict mode and absent otherwise; and the "same key" flag can only be
   * cleared in strict mode while something is buffered.
   */
  predicate Consistent(c: Config, s: Snapshot)
  {
    && Admissible(c, s.buffer)
    && (s.bufferFull <==> s.buffer != [] && |s.buffer| == c.maxSize)
    && s.lastMessageKey == (if c.onlyAcceptSame && s.buffer != [] then Some(AsMessageKey(s.buffer[0])) else None)
    && (!s.ofTheSameKey ==> c.onlyAcceptSame && s.buffer != [])
  }

  /**
   * Offer one message. A latched "full" rejects at once and changes nothing;
   * in strict mode the first message's key is recorded and a message with a
   * different key is rejected, clearing `ofTheSameKey`; otherwise the message
   * is appended and "full" is latched when the buffer reaches `maxSize`.
   */
  function Accept(c: Config, s: Snapshot, next: Message): (r: Step)
    ensures s.bufferFull ==> r == Step(s, false)
    ensures r.accepted <==> r.after.buffer == s.buffer + [next]
    ensures !r.accepted ==> r.after.buffer == s.buffer && r.after.bufferFull == s.bufferFull
    ensures r.accepted ==> r.after.bufferFull == (|s.buffer| + 1 == c.maxSize)
    ensures r.accepted ==> r.after.ofTheSameKey == s.ofTheSameKey
    ensures r.accepted && c.onlyAcceptSame ==>
      r.after.lastMessageKey == (if s.lastMessageKey.None? then Some(AsMessageKey(next)) else s.lastMessageKey)
    ensures r.after.ofTheSameKey != s.ofTheSameKey ==>
      && c.onlyAcceptSame && !s.bufferFull && s.lastMessageKey.Some? && s.lastMessageKey.value != AsMessageKey(next)
    ensures !c.onlyAcceptSame ==>
      && r.accepted == !s.bufferFull
      && r.after.lastMessageKey == s.lastMessageKey
      && r.after.ofTheSameKey == s.ofTheSameKey
    ensures c.onlyAcceptSame && !s.bufferFull && s.lastMessageKey.Some? && s.lastMessageKey.value != AsMessageKey(next) ==>
      r == Step(s.(ofTheSameKey := false), false)
  {
    if s.bufferFull then
      Step(s, false)
    else if c.onlyAcceptSame && s.lastMessageKey.Some? && s.lastMessageKey.value != AsMessageKey(next) then
      Step(s.(ofTheSameKey := false), false)
    else
      var key := if c.onlyAcceptSame && s.lastMessageKey.None? then Some(AsMessageKey(next)) else s.lastMessageKey;
      var buffer := s.buffer + [next];
      Step(Snapshot(buffer, |buffer| == c.maxSize, key, s.ofTheSameKey), true)
  }

  /**
   * Hand back the buffered batch. An empty buffer yields an empty batch and
   * leaves the state alone; otherwise the batch is the buffer, in order, and
   * every latch is reset so the assembler can be reused.
   */
  function Drain(s: Snapshot): (r: Drained)
    ensures r.batch == s.buffer
    ensures r.after.buffer == []
    ensures s.buffer == [] ==> r.after == s
    ensures s.buffer != [] ==> r.after == Initial
  {
    if s.buffer == [] then Drained(s, []) else Drained(Initial, s.buffer)
  }

  /** A fresh assembler satisfies the invariant, whatever its settings. */
  lemma InitialConsistent(c: Config)
    ensures Consistent(c, Initial)
  {
  }

  /** Appending one message to an admissible batch keeps it admissible exactly when the size and key rules allow it. */
  lemma AdmissibleSnoc(c: Config, batch: seq<Message>, next: Message)
    requires Admissible(c, batch)
    ensures Admissible(c, batch + [next]) <==>
      && (c.maxSize >= 1 ==> |batch| < c.maxSize)
      && (c.onlyAcceptSame && batch != [] ==> AsMessageKey(next) == AsMessageKey(batch[0]))
  {
    var b := batch + [next];
    assert b[|batch|] == next;
    if c.onlyAcceptSame && batch != [] && AsMessageKey(next) == AsMessageKey(batch[0]) {
      forall i | 0 <= i < |b| ensures AsMessageKey(b[i]) == AsMessageKey(b[0]) {
        if i < |batch| { assert b[i] == batch[i]; }
      }
    }
  }

  /** Every prefix of an admissible batch is admissible. */
  lemma AdmissiblePrefix(c: Config, batch: seq<Message>, k: nat)
    requires k <= |batch|
    ensures Admissible(c, batch) ==> Admissible(c, batch[..k])
  {
    var p := batch[..k];
    if Admissible(c, batch) && c.onlyAcceptSame && k > 0 {
      forall i | 0 <= i < |p| ensures AsMessageKey(p[i]) == AsMessageKey(p[0]) {
        assert p[i] == batch[i] && p[0] == batch[0];
      }
    }
  }

  /** From a consistent state, `Accept` answers true exactly when the longer buffer is still an admissible batch. */
  lemma AcceptIffAdmissible(c: Config, s: Snapshot, next: Message)
    requires Consistent(c, s)
    ensures Accept(c, s, next).accepted <==> Admissible(c, s.buffer + [next])
  {
    AdmissibleSnoc(c, s.buffer, next);
  }

  /** `Accept` preserves the invariant. */
  lemma AcceptPreservesConsistent(c: Config, s: Snapshot, next: Message)
    requires Consistent(c, s)
    ensures Consistent(c, Accept(c, s, next).after)
  {
    AcceptIffAdmissible(c, s, next);
    var r := Accept(c, s, next);
    if r.accepted {
      assert r.after.buffer[0] == (if s.buffer == [] then next else s.buffer[0]);
    }
  }

  /**
   * In strict mode every buffered message carries the recorded key, which is
   * the key of the first message accepted since the last drain.
   */
  lemma StrictBufferHasRecordedKey(c: Config, s: Snapshot)
    requires Consistent(c, s) && c.onlyAcceptSame
    ensures s.buffer == [] <==> s.lastMessageKey.None?
    ensures s.buffer != [] ==> s.lastMessageKey == Some(AsMessageKey(s.buffer[0]))
    ensures forall i :: 0 <= i < |s.buffer| ==> Some(AsMessageKey(s.buffer[i])) == s.lastMessageKey
  {
  }

  /** With `maxSize >= 1` the buffer never exceeds it, and "full" means exactly "holds `maxSize` messages". */
  lemma SizeBound(c: Config, s: Snapshot)
    requires Consistent(c, s) && c.maxSize >= 1
    ensures |s.buffer| <= c.maxSize
    ensures s.bufferFull <==> |s.buffer| == c.maxSize
  {
  }

  /** A cleared "same key" flag means strict mode, a recorded key and a non-empty buffer. */
  lemma MixedLatchImpliesRecordedKey(c: Config, s: Snapshot)
    requires Consistent(c, s) && !s.ofTheSameKey
    ensures c.onlyAcceptSame && s.lastMessageKey.Some? && s.buffer != []
  {
  }

  /**
   * A cleared "same key" flag is only a signal to the caller: it does not stop
   * a later message of the recorded key from being accepted.
   */
  lemma MixedLatchDoesNotBlock(c: Config, s: Snapshot, next: Message)
    requires Consistent(c, s) && !s.ofTheSameKey && !s.bufferFull
    requires AsMessageKey(next) == AsMessageKey(s.buffer[0])
    ensures Accept(c, s, next).accepted
    ensures !Accept(c, s, next).after.ofTheSameKey
  {
  }

  /** On a consistent state `Drain` always leaves the initial state, which is consistent again. */
  lemma DrainResets(c: Config, s: Snapshot)
    requires Consistent(c, s)
    ensures Drain(s).after == Initial
    ensures Consistent(c, Drain(s).after)
  {
  }

  /** Draining twice in a row: the second drain hands back nothing and changes nothing. */
  lemma DrainTwice(c: Config, s: Snapshot)
    requires Consistent(c, s)
    ensures Drain(Drain(s).after) == Drained(Initial, [])
  {
    DrainResets(c, s);
  }
}
