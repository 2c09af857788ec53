/** Registrations, dispatch and replies over runs of the daemon. */
module DaemonDispatch {
  import opened Selectors
  import opened VectorTableSpec
  import opened Messages
  import opened DaemonSpec
  import opened DaemonVme
  import opened DaemonInvariants

  // ---------------------------------------------------------------- Which events touch the table

  /** The event is an accepted request for `sel`. */
  ghost predicate Grants(s: State, ev: Event, sel: Selector)
    requires Enabled(s, ev)
  {
    && ev.Served? && ev.input.received == Got(RequestIrq(sel))
    && RegisterCode(s.table, s.polls[ev.idx].fd, sel, CanAppend(s, ev.input)) == 0
  }

  /** The event is the owner of `e` hanging up or releasing exactly that key. */
  ghost predicate Drops(s: State, ev: Event, e: Entry)
    requires Enabled(s, ev)
  {
    && ev.Served? && s.polls[ev.idx].fd == e.data
    && (ev.input.received == Closed ||
        (ev.input.received.Got? && ev.input.received.msg.ReleaseIrq? &&
         HashEq(e.selector, ev.input.received.msg.selector)))
  }

  /** The event is one that can change the table at all. */
  ghost predicate TouchesTable(ev: Event) {
    && ev.Served?
    && (ev.input.received == Closed ||
        (ev.input.received.Got? && (ev.input.received.msg.RequestIrq? || ev.input.received.msg.ReleaseIrq?)))
  }

  lemma OtherEventsKeepTable(s: State, ev: Event)
    requires Enabled(s, ev) && !TouchesTable(ev)
    ensures Step(s, ev).table == s.table
  {
    if ev.Serviced? { SearchEffect(s, ev.idx, s.crates[ev.idx].irqen, ev.passes); }
  }

  /** The table after each kind of event that touches it. */
  lemma TableAfter(s: State, ev: Event)
    requires Inv(s) && Enabled(s, ev) && TouchesTable(ev)
    ensures var sock, t := s.polls[ev.idx].fd, Step(s, ev).table;
            match ev.input.received
            case Got(RequestIrq(sel)) => t == Register(s.table, sock, sel, CanAppend(s, ev.input))
            case Got(ReleaseIrq(sel)) => t == Release(s.table, sock, sel)
            case _ => t == Without(s.table, sock)
  {
  }

  // ---------------------------------------------------------------- Registrations last

  lemma ReleaseRemovesExactly(t: seq<Entry>, sd: int, sel: Selector, e: Entry)
    requires GoodTable(t) && e in t
    ensures e in Release(t, sd, sel) <==> !(e.data == sd && HashEq(e.selector, sel))
  {
    var i, r := FirstEqual(t, sel), Release(t, sd, sel);
    var j: nat :| j < |t| && t[j] == e;
    if HashEq(e.selector, sel) {
      KeysAreUnique(t, i, j);
      if e in r && ReleaseCode(t, sd, sel) == 0 {
        var k: nat :| k < |r| && r[k] == e;
        KeysAreUnique(t, i, if k < i then k else k + 1);
      }
    } else if ReleaseCode(t, sd, sel) == 0 {
      assert r[if j < i then j else j - 1] == e;
    }
  }

  /** An entry leaves the table exactly when its owner releases its key or hangs up. */
  lemma EntryStaysUnlessDropped(s: State, ev: Event, e: Entry)
    requires Inv(s) && Enabled(s, ev) && e in s.table
    ensures e in Step(s, ev).table <==> !Drops(s, ev, e)
  {
    if TouchesTable(ev) {
      TableAfter(s, ev);
      if ev.input.received.Got? && ev.input.received.msg.ReleaseIrq? {
        ReleaseRemovesExactly(s.table, s.polls[ev.idx].fd, ev.input.received.msg.selector, e);
      }
    } else {
      OtherEventsKeepTable(s, ev);
    }
  }

  ghost predicate NeverDropped(s: State, evs: seq<Event>, e: Entry)
    requires EnabledRun(s, evs)
    decreases |evs|
  {
    |evs| == 0 || (!Drops(s, evs[0], e) && NeverDropped(Step(s, evs[0]), evs[1..], e))
  }

  /**
   * Whatever other clients register, release or drop, an entry keeps answering its own selector
   * until its owner releases it or hangs up.
   */
  lemma {:induction false} RegistrationLasts(s: State, evs: seq<Event>, e: Entry)
    requires Inv(s) && EnabledRun(s, evs) && e in s.table && NeverDropped(s, evs, e)
    ensures e in Run(s, evs).table
    ensures Answer(Run(s, evs).table, e.selector) == Some(e)
    decreases |evs|
  {
    if |evs| == 0 {
      var i: nat :| i < |s.table| && s.table[i] == e;
      EntryAnswersItself(s.table, i);
    } else {
      EntryStaysUnlessDropped(s, evs[0], e);
      StepKeepsInv(s, evs[0]);
      RegistrationLasts(Step(s, evs[0]), evs[1..], e);
    }
  }

  /** A granted request is such an entry, with the requesting client and its payload. */
  lemma GrantedRequestLasts(s: State, ev: Event, sel: Selector, evs: seq<Event>)
    requires Inv(s) && Enabled(s, ev) && Grants(s, ev, sel) && EnabledRun(Step(s, ev), evs)
    requires NeverDropped(Step(s, ev), evs, Entry(sel, s.polls[ev.idx].fd))
    ensures Answer(Run(Step(s, ev), evs).table, sel) == Some(Entry(sel, s.polls[ev.idx].fd))
  {
    TableAfter(s, ev);
    StepKeepsInv(s, ev);
    RegistrationLasts(Step(s, ev), evs, Entry(sel, s.polls[ev.idx].fd));
  }

  // ---------------------------------------------------------------- Dispatch is stable

  lemma ReleaseChangesAnswer(t: seq<Entry>, sd: int, sel: Selector, req: Selector)
    requires GoodTable(t)
    ensures Answer(Release(t, sd, sel), req) != Answer(t, req) <==>
            Answer(t, req).Some? && Answer(t, req).value.data == sd && HashEq(Answer(t, req).value.selector, sel)
  {
    var i, f := FirstEqual(t, sel), FirstCover(t, req);
    if ReleaseCode(t, sd, sel) == 0 {
      RemoveChangesAnswer(t, i, req);
    }
    if f < |t| && HashEq(t[f].selector, sel) {
      KeysAreUnique(t, i, f);
    }
  }

  /**
   * The answer to a request changes exactly when the answering entry itself is dropped, or when
   * nothing answered and the step grants a registration that covers the request.
   */
  lemma DispatchIsStable(s: State, ev: Event, req: Selector)
    requires Inv(s) && Enabled(s, ev)
    ensures Answer(Step(s, ev).table, req) != Answer(s.table, req) <==>
            || (Answer(s.table, req).Some? && Drops(s, ev, Answer(s.table, req).value))
            || (Answer(s.table, req).None? && exists sel :: Grants(s, ev, sel) && Covers(sel, req))
  {
    if TouchesTable(ev) {
      TableAfter(s, ev);
      var sock := s.polls[ev.idx].fd;
      match ev.input.received {
        case Got(RequestIrq(sel)) =>
          RegisterChangesAnswer(s.table, Entry(sel, sock), req);
          assert forall x | Grants(s, ev, x) :: x == sel;
          if RegisterCode(s.table, sock, sel, CanAppend(s, ev.input)) == 0 { assert Grants(s, ev, sel); }
        case Got(ReleaseIrq(sel)) => ReleaseChangesAnswer(s.table, sock, sel, req);
        case _ => WithoutChangesAnswer(s.table, sock, req);
      }
    } else {
      OtherEventsKeepTable(s, ev);
    }
  }

  // ---------------------------------------------------------------- What is sent

  lemma OwnerIsClient(s: State, m: Sent)
    requires Inv(s) && m.Signal? && ReachesOwner(s.table, m)
    ensures IsClient(s, m.sock)
  {
    AnswerIsAnEntry(s.table, m.sel);
    var i: nat :| i < |s.table| && s.table[i] == Answer(s.table, m.sel).value;
    assert IsClient(s, s.table[i].data);
  }

  /** Whatever handling a message sends goes to its sender, or is a signal to its owner. */
  lemma HandlingSends(s: State, sock: int, msg: Message, input: ClientInput)
    ensures var t := HandleMessage(s, sock, msg, input);
            && s.sent <= t.sent
            && forall j | |s.sent| <= j < |t.sent| ::
                 ReachesOwner(s.table, t.sent[j]) && (t.sent[j].sock == sock || t.sent[j].Signal?)
  {
    if msg.IrqSignal? {
      DeliveryReachesOwner(s.table, msg.selector);
      if s.fakeOk && !input.replyFails { NotifyEffect(Send(s, Reply(sock, true)), msg.selector, input.exchange); }
    }
  }

  /** Every message a step sends goes to a connected client, and every signal to its owner. */
  lemma StepSendsToClients(s: State, ev: Event, j: nat)
    requires Inv(s) && Enabled(s, ev) && |s.sent| <= j < |Step(s, ev).sent|
    ensures s.sent <= Step(s, ev).sent
    ensures IsClient(s, Step(s, ev).sent[j].sock) && ReachesOwner(s.table, Step(s, ev).sent[j])
  {
    var m := Step(s, ev).sent[j];
    if ev.Serviced? {
      SearchEffect(s, ev.idx, s.crates[ev.idx].irqen, ev.passes);
      SearchSignals(s, ev.idx, s.crates[ev.idx].irqen, ev.passes);
    } else if ev.Served? && ev.input.received.Got? {
      var sock, msg := s.polls[ev.idx].fd, ev.input.received.msg;
      assert IsClient(s, sock);
      HandlingSends(Note(s, sock, msg, false), sock, msg, ev.input);
    }
    if m.Signal? { OwnerIsClient(s, m); }
  }

  /**
   * A request gets exactly one reply. It is an acknowledgement exactly when the table has grown
   * by that entry; otherwise the table is as it was.
   */
  lemma RequestAnsweredOnce(s: State, idx: nat, sel: Selector, input: ClientInput)
    requires Inv(s) && Enabled(s, Served(idx, input)) && input.received == Got(RequestIrq(sel))
    ensures var t, sock := Step(s, Served(idx, input)), s.polls[idx].fd;
            exists ack ::
              && t.sent == s.sent + [Reply(sock, ack)]
              && (ack <==> t.table == s.table + [Entry(sel, sock)])
              && (!ack <==> t.table == s.table)
  {
    var ack := RegisterCode(s.table, s.polls[idx].fd, sel, CanAppend(s, input)) == 0;
    var t := Step(s, Served(idx, input));
    assert t.sent == s.sent + [Reply(s.polls[idx].fd, ack)];
    assert |s.table + [Entry(sel, s.polls[idx].fd)]| != |s.table|;
  }

  /** `u` is `t` without one entry of that owner and key. */
  ghost predicate RemovedOne(t: seq<Entry>, u: seq<Entry>, sd: int, sel: Selector) {
    exists i: nat :: i < |t| && t[i].data == sd && HashEq(t[i].selector, sel) && u == RemoveAt(t, i)
  }

  /** A release gets exactly one reply: an acknowledgement exactly when one entry of that key and owner went. */
  lemma ReleaseAnsweredOnce(s: State, idx: nat, sel: Selector, input: ClientInput)
    requires Inv(s) && Enabled(s, Served(idx, input)) && input.received == Got(ReleaseIrq(sel))
    ensures var t, sock := Step(s, Served(idx, input)), s.polls[idx].fd;
            exists ack ::
              && t.sent == s.sent + [Reply(sock, ack)]
              && (ack <==> RemovedOne(s.table, t.table, sock, sel))
              && (!ack <==> t.table == s.table)
  {
    var sock, i := s.polls[idx].fd, FirstEqual(s.table, sel);
    var ack := ReleaseCode(s.table, sock, sel) == 0;
    var t := Step(s, Served(idx, input));
    assert t.sent == s.sent + [Reply(sock, ack)];
    if ack { assert t.table == RemoveAt(s.table, i) && |t.table| != |s.table|; }
  }
}
