/**
 * `BufferNextMessage`: the drain strategy a bounded queue offers its messages
 * to, one at a time, while it assembles the next batch. Its fields change in
 * place, so it is a class. The functions `BatchPolicy.Accept` and
 * `BatchPolicy.Drain` are the specification of its two methods: each method
 * is proved to do what the matching function says, and to keep
 * `BatchPolicy.Consistent`.
 */
module Buffering {
  import opened Wrappers
  import opened Messages
  import BatchPolicy

  class BufferNextMessage {
    const maxSize: int
    const onlyAcceptSame: bool
    var buffer: seq<Message>
    var bufferFull: bool
    var lastMessageKey: Option<MessageKey>
    var ofTheSameKey: bool

    /** The settings fixed at construction. */
    function Config(): BatchPolicy.Config
    {
      BatchPolicy.Config(maxSize, onlyAcceptSame)
    }

    /** The four mutable fields as one value. */
    function State(): BatchPolicy.Snapshot
      reads this
    {
      BatchPolicy.Snapshot(buffer, bufferFull, lastMessageKey, ofTheSameKey)
    }

    /** The object invariant: the fields form a consistent assembler state. */
    ghost predicate Valid()
      reads this
    {
      BatchPolicy.Consistent(Config(), State())
    }

    /** A new assembler with an empty buffer and no latch set. */
    constructor (maxSize: int, onlyAcceptSame: bool)
      ensures this.maxSize == maxSize && this.onlyAcceptSame == onlyAcceptSame
      ensures State() == BatchPolicy.Initial
      ensures Valid()
    {
      this.maxSize := maxSize;
      this.onlyAcceptSame := onlyAcceptSame;
      buffer := [];
      bufferFull := false;
      lastMessageKey := None;
      ofTheSameKey := true;
    }

    /**
     * Offer `next` for the batch being assembled; true when it was appended.
     * A full buffer rejects and changes nothing; in strict mode a message
     * whose key differs from the recorded one is rejected and clears
     * `ofTheSameKey`.
     */
    method Accept(next: Message) returns (accepted: bool)
      requires Valid()
      modifies this
      ensures Valid()
      ensures BatchPolicy.Step(State(), accepted) == BatchPolicy.Accept(Config(), old(State()), next)
      ensures accepted <==> buffer == old(buffer) + [next]
      ensures accepted <==> BatchPolicy.Admissible(Config(), old(buffer) + [next])
      ensures old(bufferFull) ==> !accepted && unchanged(this)
      ensures !onlyAcceptSame ==> lastMessageKey == old(lastMessageKey) && ofTheSameKey == old(ofTheSameKey)
    {
      BatchPolicy.AcceptIffAdmissible(Config(), State(), next);
      BatchPolicy.AcceptPreservesConsistent(Config(), State(), next);
      if bufferFull {
        return false;
      }
      if onlyAcceptSame {
        var nextKey := AsMessageKey(next);
        if lastMessageKey.None? {
          lastMessageKey := Some(nextKey);
        } else if lastMessageKey.value != nextKey {
          ofTheSameKey := false;
          return false;
        }
      }
      buffer := buffer + [next];
      if |buffer| == maxSize {
        bufferFull := true;
      }
      return true;
    }

    /**
     * Hand back the assembled batch, in the order it was accepted, and reset
     * every latch so the same object can assemble the next batch.
     */
    method Drain() returns (batch: seq<Message>)
      requires Valid()
      modifies this
      ensures Valid()
      ensures BatchPolicy.Drained(State(), batch) == BatchPolicy.Drain(old(State()))
      ensures batch == old(buffer)
      ensures State() == BatchPolicy.Initial
    {
      BatchPolicy.DrainResets(Config(), State());
      if buffer == [] {
        return [];
      }
      batch := buffer;
      buffer := [];
      bufferFull := false;
      lastMessageKey := None;
      ofTheSameKey := true;
    }
  }
}
