/**
 * Messages and their grouping keys.
 *
 * A message is an opaque unit of work that can derive the key it is batched
 * under (`Message.asMessageKey`). Keys are compared with `MessageKey.equals`;
 * the model uses the integer key of the test fixture `TestMessage.Key`, whose
 * `equals` compares the two integers, so Dafny's structural equality on
 * `MessageKey` is exactly that `equals`.
 */
module Messages {

  /** The grouping key: two keys are equal exactly when their integers are. */
  datatype MessageKey = MessageKey(key: int)

  /** A message with its identifier and the integer its key is derived from. */
  datatype Message = Message(id: int, key: int)

  /** The key a message is batched under; a fresh key object carrying the message's integer. */
  function AsMessageKey(m: Message): MessageKey
  {
    MessageKey(m.key)
  }

  /** Two messages are batched under equal keys exactly when their integers are equal. */
  lemma KeyEquals(a: Message, b: Message)
    ensures AsMessageKey(a) == AsMessageKey(b) <==> a.key == b.key
  {
  }
}
