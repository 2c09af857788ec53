/** The messages between clients and daemon, and how a reply is classified. */
module Messages {
  import opened ErrorNumbers
  import Selectors

  datatype Message =
    | Nak
    | Ack
    | RequestIrq(selector: Selectors.Selector)
    | ReleaseIrq(selector: Selectors.Selector)
    | IrqSignal(selector: Selectors.Selector)
    | ServerStatus
    | Other(code: int)

  /** What one read from a socket yields. */
  datatype Received = ReadError(errno: Errno) | Closed | Got(msg: Message)

  /** One message sent and the reply that is then read. */
  datatype Exchange = SendError(errno: Errno) | Delivered(reply: Received)

  /** The result of a message that must be acknowledged: zero or a negated error number. */
  function HandshakeCode(x: Exchange): int {
    match x
    case SendError(e) => 0 - e
    case Delivered(ReadError(e)) => 0 - e
    case Delivered(Closed) => -ECONNRESET
    case Delivered(Got(Ack)) => 0
    case Delivered(Got(Nak)) => -EPERM
    case Delivered(Got(_)) => -EBADMSG
  }

  /** Only an acknowledgement succeeds; every other outcome is a negative code. */
  lemma HandshakeSucceedsOnAck(x: Exchange)
    ensures HandshakeCode(x) <= 0
    ensures HandshakeCode(x) == 0 <==> x == Delivered(Got(Ack))
  {
  }

  /** What each way to fail gives: the error of the call, a closed connection, or a wrong message. */
  lemma HandshakeFailures(x: Exchange)
    ensures x.SendError? ==> HandshakeCode(x) == 0 - x.errno
    ensures x.Delivered? && x.reply.ReadError? ==> HandshakeCode(x) == 0 - x.reply.errno
    ensures x == Delivered(Closed) ==> HandshakeCode(x) == -ECONNRESET
  {
  }

  /**
   * A response other than an acknowledgement is meant to give EBADMSG. It does exactly when it is
   * not a NAK, which gives EPERM instead.
   */
  lemma BadMessageExcludesNak(m: Message)
    requires m != Ack
    ensures HandshakeCode(Delivered(Got(m))) == -EBADMSG <==> m != Nak
    ensures HandshakeCode(Delivered(Got(Nak))) == -EPERM
  {
  }
}
