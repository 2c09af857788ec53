/** What each event leaves behind, written out in full. */
module DaemonHandlers {
  import opened Selectors
  import opened VectorTableSpec
  import opened Messages
  import opened PollLists
  import opened DaemonSpec
  import opened DaemonInvariants
  import DaemonVme
  import Bits

  /** Each crate has exactly the lines enabled that some entry names for it. */
  ghost predicate LinesAreThoseNamed(t: State) {
    forall i, k: nat | 0 <= i < |t.crates| :: k in t.crates[i].irqen <==> NamedBySome(t.table, t.crates[i].number, k)
  }

  ghost predicate SameNumbers(s: State, t: State) {
    |t.crates| == |s.crates| && forall i | 0 <= i < |s.crates| :: t.crates[i].number == s.crates[i].number
  }

  lemma RecomputedLines(s: State)
    requires AllLegal(s.table)
    ensures LinesAreThoseNamed(DisableUnusedInterrupts(s)) && SameNumbers(s, DisableUnusedInterrupts(s))
  {
    var t := DisableUnusedInterrupts(s);
    forall i, k: nat | 0 <= i < |t.crates|
      ensures k in t.crates[i].irqen <==> NamedBySome(t.table, t.crates[i].number, k)
    {
      RecomputeIsExact(s, i);
      LinesAreNamed(s.table, s.crates[i].number, k);
    }
  }

  /** What a message that the main loop reads adds to the messages read. */
  function Noted(s: State, idx: nat, msg: Message): seq<Reading>
    requires idx < |s.polls|
  {
    s.read + [Reading(s.polls[idx].fd, msg, false, |s.sent|)]
  }

  /**
   * A request is acknowledged if and only if it is legal, no entry covers it, and there is a free slot
   * or memory for more. Then it is the last entry and, unless the acknowledgement fails, its lines are
   * enabled on every open crate. Otherwise it is refused and nothing else changes.
   */
  lemma RequestStep(s: State, idx: nat, sel: Selector, input: ClientInput)
    requires Inv(s) && |s.crates| < idx < |s.polls| && input.received == Got(RequestIrq(sel))
    ensures var t, sock := Step(s, Served(idx, input)), s.polls[idx].fd;
            var granted := Legal(sel) && !Taken(s.table, sel) && (|s.table| < s.capacity || input.memory);
            && t == s.(
                 crates := t.crates,
                 table := if granted then s.table + [Entry(sel, sock)] else s.table,
                 capacity := if granted && |s.table| >= s.capacity then s.capacity + INCR else s.capacity,
                 sent := s.sent + [Reply(sock, granted)],
                 read := Noted(s, idx, RequestIrq(sel)))
            && |t.crates| == |s.crates|
            && forall i | 0 <= i < |s.crates| ::
                 t.crates[i] == s.crates[i].(irqen :=
                   s.crates[i].irqen + if granted && !input.replyFails then Irqs(sel) else {})
  {
    RegisterOutcome(s.table, s.polls[idx].fd, sel, CanAppend(s, input));
    Bits.EmptyMask(sel.crate);
    var t := Step(s, Served(idx, input));
    forall i | 0 <= i < |s.crates|
      ensures s.crates[i].(irqen := s.crates[i].irqen + {}) == s.crates[i]
    {
      assert s.crates[i].irqen + {} == s.crates[i].irqen;
    }
  }

  /**
   * A release is acknowledged if and only if the first entry with its key belongs to the client; that
   * entry goes and no other. Either way the lines are recomputed.
   */
  lemma ReleaseStep(s: State, idx: nat, sel: Selector, input: ClientInput)
    requires Inv(s) && |s.crates| < idx < |s.polls| && input.received == Got(ReleaseIrq(sel))
    ensures var t, sock := Step(s, Served(idx, input)), s.polls[idx].fd;
            var granted := exists i: nat :: IsFirstEqual(s.table, sel, i) && s.table[i].data == sock;
            && t == s.(
                 crates := t.crates,
                 table := t.table,
                 sent := s.sent + [Reply(sock, granted)],
                 read := Noted(s, idx, ReleaseIrq(sel)))
            && (!granted ==> t.table == s.table)
            && (forall i: nat | IsFirstEqual(s.table, sel, i) && s.table[i].data == sock ::
                  t.table == s.table[..i] + s.table[i + 1..])
            && SameNumbers(s, t) && LinesAreThoseNamed(t)
  {
    var sock := s.polls[idx].fd;
    ReleaseOutcome(s.table, sock, sel);
    ReleaseKeepsTable(s.table, sock, sel);
    var ok := ReleaseCode(s.table, sock, sel) == 0;
    var s1 := Note(s, sock, ReleaseIrq(sel), false);
    RecomputedLines(Send(s1.(table := Release(s.table, sock, sel)), Reply(sock, ok)));
  }

  /** A hang-up takes the client's slot and all its entries, and recomputes the lines. Nothing is sent. */
  lemma HangUpStep(s: State, idx: nat, input: ClientInput)
    requires Inv(s) && |s.crates| < idx < |s.polls| && input.received == Closed
    ensures var t, sock := Step(s, Served(idx, input)), s.polls[idx].fd;
            && t == s.(crates := t.crates, polls := s.polls[..idx] + s.polls[idx + 1..], table := t.table)
            && t.table == Without(s.table, sock)
            && (forall e :: e in t.table <==> e in s.table && e.data != sock)
            && SameNumbers(s, t) && LinesAreThoseNamed(t)
  {
    var sock := s.polls[idx].fd;
    WithoutKeepsTable(s.table, sock);
    RecomputedLines(s.(polls := s.polls[..idx] + s.polls[idx + 1..], table := Without(s.table, sock)));
  }

  /**
   * A client's interrupt signal is a request to fake one. It is refused unless the setting allows it.
   * Otherwise it is acknowledged and, unless that fails, delivered like an interrupt.
   */
  lemma FakeStep(s: State, idx: nat, sel: Selector, input: ClientInput)
    requires |s.crates| < idx < |s.polls| && input.received == Got(IrqSignal(sel))
    ensures var t, sock := Step(s, Served(idx, input)), s.polls[idx].fd;
            && t == s.(sent := t.sent, read := t.read)
            && t.sent == s.sent + [Reply(sock, s.fakeOk)]
                         + (if s.fakeOk && !input.replyFails then DaemonVme.Delivery(s.table, sel) else [])
            && Noted(s, idx, IrqSignal(sel)) <= t.read
            && |t.read| <= |s.read| + 2
            && (|t.read| == |s.read| + 2 <==>
                  && s.fakeOk && !input.replyFails && Taken(s.table, sel)
                  && input.exchange.Delivered? && input.exchange.reply.Got?)
            && (|t.read| == |s.read| + 2 ==> t.read[|s.read| + 1].msg == input.exchange.reply.msg)
  {
    AnswerIsFirstCover(s.table, sel);
  }

  /** What is owed to a fake is one signal, as asked for, to the owner of the first covering entry. */
  lemma FakeIsDelivered(s: State, sel: Selector, i: nat)
    requires IsFirstCover(s.table, sel, i)
    ensures DaemonVme.Delivery(s.table, sel)
            == [Signal(s.table[i].data, sel.(payload := s.table[i].selector.payload))]
  {
    AnswerIsFirstCover(s.table, sel);
  }

  /** A status query is answered with the process, the open crates, the clients and the entries. */
  lemma StatusStep(s: State, idx: nat, input: ClientInput)
    requires |s.crates| < idx < |s.polls| && input.received == Got(ServerStatus)
    ensures var t := Step(s, Served(idx, input));
            && t == s.(sent := t.sent, read := Noted(s, idx, ServerStatus))
            && |t.sent| == |s.sent| + 1 && s.sent <= t.sent
            && var m := t.sent[|s.sent|];
               && m.Report? && m.sock == s.polls[idx].fd
               && m.status.pid == s.pid
               && (forall c :: c in m.status.crates <==> exists i :: 0 <= i < |s.crates| && s.crates[i].number == c)
               && m.status.clients == |s.polls| - |s.crates| - 1
               && m.status.irqRequests == |s.table|
  {
  }

  /** Nothing else that is read has any effect. */
  lemma OtherMessageStep(s: State, idx: nat, input: ClientInput)
    requires |s.crates| < idx < |s.polls|
    ensures input.received.ReadError? ==> Step(s, Served(idx, input)) == s
    ensures input.received.Got? && (input.received.msg.Ack? || input.received.msg.Nak? || input.received.msg.Other?) ==>
              Step(s, Served(idx, input)) == s.(read := Noted(s, idx, input.received.msg))
  {
  }

  /** An accepted socket gets the last slot of a list that is allocated to fit; a failed accept does nothing. */
  lemma AcceptStep(s: State, fd: int, flags: bool)
    requires Inv(s) && Enabled(s, Accepted(fd, flags))
    ensures Step(s, Accepted(fd, flags)) == s.(polls := s.polls + [PollFd(fd, flags)], room := |s.polls| + 1)
    ensures Step(s, AcceptFailed) == s
  {
  }

  /** Polling sets the event flags and nothing else. */
  lemma PollStep(s: State, ready: seq<bool>)
    requires |ready| == |s.polls|
    ensures var t := Step(s, Polled(ready));
            && t == s.(polls := t.polls) && |t.polls| == |s.polls|
            && forall i | 0 <= i < |s.polls| :: t.polls[i] == PollFd(s.polls[i].fd, ready[i])
  {
  }
}
