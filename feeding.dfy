/**
 * The caller's side of the protocol: the bounded queue offers its messages to
 * the assembler in order and stops at the first one `accept` rejects. The
 * queue itself is not part of this model; only this protocol is.
 */
module Feeding {
  import opened Messages
  import opened BatchPolicy
  import Buffering

  /** The assembler's state after feeding, and how many messages it took from the front. */
  datatype Fill = Fill(after: Snapshot, taken: nat)

  /** Offer `msgs` in order to an assembler in state `s`, stopping at the first rejection. */
  function Feed(c: Config, s: Snapshot, msgs: seq<Message>): (r: Fill)
    ensures r.taken <= |msgs|
    ensures r.after.buffer == s.buffer + msgs[..r.taken]
    decreases |msgs|
  {
    if msgs == [] then
      Fill(s, 0)
    else
      var step := Accept(c, s, msgs[0]);
      if !step.accepted then
        Fill(step.after, 0)
      else
        var rest := Feed(c, step.after, msgs[1..]);
        assert s.buffer + [msgs[0]] + msgs[1..][..rest.taken] == s.buffer + msgs[..rest.taken + 1];
        Fill(rest.after, rest.taken + 1)
  }

  /**
   * Feeding takes the longest prefix of `msgs` that extends the current
   * buffer to an admissible batch: what it took is admissible, and taking any
   * more of `msgs` would not be. The invariant holds afterwards.
   */
  lemma {:induction false} FeedTakesLongestAdmissiblePrefix(c: Config, s: Snapshot, msgs: seq<Message>)
    requires Consistent(c, s)
    ensures Consistent(c, Feed(c, s, msgs).after)
    ensures Admissible(c, s.buffer + msgs[..Feed(c, s, msgs).taken])
    ensures forall j :: Feed(c, s, msgs).taken < j <= |msgs| ==> !Admissible(c, s.buffer + msgs[..j])
    decreases |msgs|
  {
    if msgs == [] {
      assert s.buffer + msgs[..0] == s.buffer;
    } else {
      var step := Accept(c, s, msgs[0]);
      AcceptIffAdmissible(c, s, msgs[0]);
      AcceptPreservesConsistent(c, s, msgs[0]);
      if !step.accepted {
        assert s.buffer + msgs[..0] == s.buffer;
        forall j | 0 < j <= |msgs| ensures !Admissible(c, s.buffer + msgs[..j]) {
          var longer := s.buffer + msgs[..j];
          assert longer[..|s.buffer| + 1] == s.buffer + [msgs[0]];
          AdmissiblePrefix(c, longer, |s.buffer| + 1);
        }
      } else {
        FeedTakesLongestAdmissiblePrefix(c, step.after, msgs[1..]);
        forall j | 1 <= j <= |msgs| ensures step.after.buffer + msgs[1..][..j - 1] == s.buffer + msgs[..j] {
          assert s.buffer + [msgs[0]] + msgs[1..][..j - 1] == s.buffer + msgs[..j];
        }
      }
    }
  }

  /**
   * When feeding stops before the end of `msgs`, the assembler records why:
   * either the buffer is full, or (strict mode) a message of another key was
   * refused and `ofTheSameKey` is cleared.
   */
  lemma {:induction false} FeedStopIsRecorded(c: Config, s: Snapshot, msgs: seq<Message>)
    requires Consistent(c, s)
    requires Feed(c, s, msgs).taken < |msgs|
    ensures Feed(c, s, msgs).after.bufferFull || !Feed(c, s, msgs).after.ofTheSameKey
    ensures !Feed(c, s, msgs).after.ofTheSameKey ==> c.onlyAcceptSame
    decreases |msgs|
  {
    var step := Accept(c, s, msgs[0]);
    AcceptPreservesConsistent(c, s, msgs[0]);
    if step.accepted {
      FeedStopIsRecorded(c, step.after, msgs[1..]);
    }
  }

  /**
   * Starting from a fresh (or just drained) assembler, feeding a non-empty
   * queue takes at least its head, never more than `maxSize` messages when
   * that is positive, and in strict mode only messages with the head's key;
   * draining afterwards hands back exactly the messages taken, in order.
   */
  lemma FeedFromInitial(c: Config, msgs: seq<Message>)
    requires msgs != []
    ensures 1 <= Feed(c, Initial, msgs).taken
    ensures c.maxSize >= 1 ==> Feed(c, Initial, msgs).taken <= c.maxSize
    ensures c.onlyAcceptSame ==>
      forall i :: 0 <= i < Feed(c, Initial, msgs).taken ==> AsMessageKey(msgs[i]) == AsMessageKey(msgs[0])
    ensures Drain(Feed(c, Initial, msgs).after).batch == msgs[..Feed(c, Initial, msgs).taken]
  {
    InitialConsistent(c);
    FeedTakesLongestAdmissiblePrefix(c, Initial, msgs);
    var k := Feed(c, Initial, msgs).taken;
    assert Initial.buffer + msgs[..k] == msgs[..k];
    assert Initial.buffer + msgs[..1] == [msgs[0]];
    if c.onlyAcceptSame {
      forall i | 0 <= i < k ensures AsMessageKey(msgs[i]) == AsMessageKey(msgs[0]) {
        assert msgs[..k][i] == msgs[i];
      }
    }
  }

  /** In strict mode with room to spare, keys 1, 1, 2, 1 yield the batch of the first two messages. */
  lemma StrictOrderStopsAtKeyChange()
    ensures var msgs := [Message(0, 1), Message(1, 1), Message(2, 2), Message(3, 1)];
      var r := Feed(Config(10, true), Initial, msgs);
      && r.taken == 2
      && !r.after.ofTheSameKey
      && Drain(r.after).batch == [Message(0, 1), Message(1, 1)]
  {
  }

  /** Without strict mode keys are ignored and the batch stops only when it is full. */
  lemma LenientStopsWhenFull()
    ensures var msgs := [Message(0, 1), Message(1, 2), Message(2, 1)];
      var r := Feed(Config(2, false), Initial, msgs);
      && r.taken == 2
      && r.after.bufferFull
      && Drain(r.after).batch == [Message(0, 1), Message(1, 2)]
  {
  }

  /**
   * The same strict-mode scenario played out on the object itself: the queue offers
   * messages until the first rejection, then drains.
   */
  method StrictOrderClient() returns (batch: seq<Message>, mixed: bool)
    ensures batch == [Message(0, 1), Message(1, 1)]
    ensures mixed
  {
    var assembler := new Buffering.BufferNextMessage(10, true);
    var first := assembler.Accept(Message(0, 1));
    var second := assembler.Accept(Message(1, 1));
    var third := assembler.Accept(Message(2, 2));
    assert first && second && !third;
    mixed := !assembler.ofTheSameKey;
    batch := assembler.Drain();
    var again := assembler.Drain();
    assert again == [];
  }
}
