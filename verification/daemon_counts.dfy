/** Conservation: what the status report counts is what the daemon has granted and not taken back. */
module DaemonCounts {
  import ErrorNumbers
  import opened Selectors
  import opened VectorTableSpec
  import opened Messages
  import opened DaemonSpec
  import DaemonVme
  import opened DaemonInvariants
  import DaemonRuns
  import opened DaemonDispatch

  datatype Kind = AckedRequest | AckedRelease | LostEntry | Connected | Disconnected

  /** How often a step counts; requests and releases count by the reply the client is sent. */
  function Count(s: State, ev: Event, kind: Kind): nat
    requires Enabled(s, ev)
  {
    match kind
    case AckedRequest =>
      if ev.Served? && ev.input.received.Got? && ev.input.received.msg.RequestIrq? && Acks(s, ev) then 1 else 0
    case AckedRelease =>
      if ev.Served? && ev.input.received.Got? && ev.input.received.msg.ReleaseIrq? && Acks(s, ev) then 1 else 0
    case LostEntry =>
      if HangsUp(ev) then Owned(s.table, s.polls[ev.idx].fd) else 0
    case Connected =>
      if ev.Accepted? then 1 else 0
    case Disconnected =>
      if HangsUp(ev) then 1 else 0
  }

  predicate Acks(s: State, ev: Event)
    requires Enabled(s, ev) && ev.Served?
  {
    Step(s, ev).sent == s.sent + [Reply(s.polls[ev.idx].fd, true)]
  }

  function Total(s: State, evs: seq<Event>, kind: Kind): nat
    requires EnabledRun(s, evs)
    decreases |evs|
  {
    if |evs| == 0 then 0 else Count(s, evs[0], kind) + Total(Step(s, evs[0]), evs[1..], kind)
  }

  lemma AckMeansReleased(s: State, ev: Event, sel: Selector)
    requires Inv(s) && Enabled(s, ev) && ev.Served? && ev.input.received == Got(ReleaseIrq(sel))
    ensures Acks(s, ev) <==> ReleaseCode(s.table, s.polls[ev.idx].fd, sel) == 0
  {
    var sock := s.polls[ev.idx].fd;
    var ok := ReleaseCode(s.table, sock, sel) == 0;
    assert Step(s, ev).sent == s.sent + [Reply(sock, ok)];
    assert Step(s, ev).sent[|s.sent|] == Reply(sock, ok);
  }

  lemma AckMeansRegistered(s: State, ev: Event, sel: Selector)
    requires Inv(s) && Enabled(s, ev) && ev.Served? && ev.input.received == Got(RequestIrq(sel))
    ensures Acks(s, ev) <==> RegisterCode(s.table, s.polls[ev.idx].fd, sel, CanAppend(s, ev.input)) == 0
  {
    var sock := s.polls[ev.idx].fd;
    var ok := RegisterCode(s.table, sock, sel, CanAppend(s, ev.input)) == 0;
    assert Step(s, ev).sent == s.sent + [Reply(sock, ok)];
    assert Step(s, ev).sent[|s.sent|] == Reply(sock, ok);
  }

  lemma StepConservesEntries(s: State, ev: Event)
    requires Inv(s) && Enabled(s, ev)
    ensures |Step(s, ev).table| + Count(s, ev, AckedRelease) + Count(s, ev, LostEntry)
            == |s.table| + Count(s, ev, AckedRequest)
  {
    if TouchesTable(ev) {
      TableAfter(s, ev);
      match ev.input.received {
        case Got(RequestIrq(sel)) => AckMeansRegistered(s, ev, sel);
        case Got(ReleaseIrq(sel)) => AckMeansReleased(s, ev, sel);
        case _ =>
      }
    } else {
      OtherEventsKeepTable(s, ev);
    }
  }

  lemma StepConservesClients(s: State, ev: Event)
    requires Inv(s) && Enabled(s, ev)
    ensures ClientCount(Step(s, ev)) + Count(s, ev, Disconnected) == ClientCount(s) + Count(s, ev, Connected)
  {
    DaemonRuns.StepKeepsFront(s, ev);
    match ev
    case Serviced(idx, passes) => DaemonVme.SearchEffect(s, idx, s.crates[idx].irqen, passes);
    case Served(idx, input) =>
      if HangsUp(ev) { DaemonRuns.HangUpKeepsFront(s, idx); } else { DaemonRuns.MessagesKeepFront(s, idx, input); }
    case _ =>
  }

  lemma {:induction false} RunConserves(s: State, evs: seq<Event>)
    requires Inv(s) && EnabledRun(s, evs)
    ensures |Run(s, evs).table| + Total(s, evs, AckedRelease) + Total(s, evs, LostEntry)
            == |s.table| + Total(s, evs, AckedRequest)
    ensures ClientCount(Run(s, evs)) + Total(s, evs, Disconnected) == ClientCount(s) + Total(s, evs, Connected)
    decreases |evs|
  {
    if |evs| > 0 {
      StepKeepsInv(s, evs[0]);
      StepConservesEntries(s, evs[0]);
      StepConservesClients(s, evs[0]);
      RunConserves(Step(s, evs[0]), evs[1..]);
    }
  }

  /** The status report: acknowledged requests less releases and losses, and clients still connected. */
  lemma ReportIsConserved(s: State, evs: seq<Event>)
    requires Initial(s) && EnabledRun(s, evs)
    ensures var status := StatusReport(Run(s, evs));
            && status.irqRequests ==
               Total(s, evs, AckedRequest) - Total(s, evs, AckedRelease) - Total(s, evs, LostEntry)
            && status.clients == Total(s, evs, Connected) - Total(s, evs, Disconnected)
            && status.pid == s.pid
            && status.crates == set i | 0 <= i < |s.crates| :: s.crates[i].number
  {
    InitialInv(s);
    RunConserves(s, evs);
    DaemonRuns.RunKeepsFront(s, evs);
    var t := Run(s, evs);
    assert forall i | 0 <= i < |s.crates| :: t.crates[i].number == s.crates[i].number;
  }

  // ---------------------------------------------------------------- Both ends of a request

  /** What a client reads when the daemon's reply is the next message on its socket. */
  function AsRead(m: Sent): Exchange
    requires m.Reply?
  {
    Delivered(Got(if m.ack then Ack else Nak))
  }

  /**
   * When the daemon's reply reaches the client, the client's call succeeds exactly when the
   * selector now answers with the client's own entry, and otherwise fails with EPERM.
   */
  lemma RequestRoundTrip(s: State, idx: nat, sel: Selector, input: ClientInput)
    requires Inv(s) && Enabled(s, Served(idx, input)) && input.received == Got(RequestIrq(sel))
    ensures var t, sock := Step(s, Served(idx, input)), s.polls[idx].fd;
            && |t.sent| == |s.sent| + 1 && t.sent[|s.sent|].Reply? && t.sent[|s.sent|].sock == sock
            && var code := HandshakeCode(AsRead(t.sent[|s.sent|]));
               && (code == 0 || code == -ErrorNumbers.EPERM)
               && (code == 0 <==> t.table == s.table + [Entry(sel, sock)])
               && (code == 0 ==> Answer(t.table, sel) == Some(Entry(sel, sock)))
  {
    RequestAnsweredOnce(s, idx, sel, input);
    var t, sock := Step(s, Served(idx, input)), s.polls[idx].fd;
    if t.table == s.table + [Entry(sel, sock)] {
      StepKeepsInv(s, Served(idx, input));
      assert t.table[|s.table|] == Entry(sel, sock);
      EntryAnswersItself(t.table, |s.table|);
    }
  }

  /**
   * A client's release succeeds exactly when one entry of that key and owner went; then no entry
   * has that key any more. Otherwise it fails with EPERM.
   */
  lemma ReleaseRoundTrip(s: State, idx: nat, sel: Selector, input: ClientInput)
    requires Inv(s) && Enabled(s, Served(idx, input)) && input.received == Got(ReleaseIrq(sel))
    ensures var t, sock := Step(s, Served(idx, input)), s.polls[idx].fd;
            && |t.sent| == |s.sent| + 1 && t.sent[|s.sent|].Reply? && t.sent[|s.sent|].sock == sock
            && var code := HandshakeCode(AsRead(t.sent[|s.sent|]));
               && (code == 0 || code == -ErrorNumbers.EPERM)
               && (code == 0 <==> RemovedOne(s.table, t.table, sock, sel))
               && (code == 0 ==> NoKey(t.table, sel))
  {
    ReleaseAnsweredOnce(s, idx, sel, input);
    var t, sock := Step(s, Served(idx, input)), s.polls[idx].fd;
    if RemovedOne(s.table, t.table, sock, sel) {
      RemovedKeyIsGone(s.table, t.table, sock, sel);
    }
  }

  ghost predicate NoKey(t: seq<Entry>, sel: Selector) {
    forall i | 0 <= i < |t| :: !HashEq(t[i].selector, sel)
  }

  lemma RemovedKeyIsGone(t: seq<Entry>, u: seq<Entry>, sd: int, sel: Selector)
    requires NoEarlierCovers(t) && RemovedOne(t, u, sd, sel)
    ensures NoKey(u, sel)
  {
    var i: nat :| i < |t| && t[i].data == sd && HashEq(t[i].selector, sel) && u == RemoveAt(t, i);
    forall j: nat | j < |u|
      ensures !HashEq(u[j].selector, sel)
    {
      var j' := if j < i then j else j + 1;
      if HashEq(t[j'].selector, sel) { KeysAreUnique(t, i, j'); }
    }
  }
}
