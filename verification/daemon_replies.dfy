/** Which of the messages read get a reply, over runs of the daemon. */
module DaemonReplies {
  import opened Messages
  import ErrorNumbers
  import opened Selectors
  import opened VectorTableSpec
  import opened DaemonSpec
  import opened DaemonInvariants
  import DaemonVme
  import DaemonRuns
  import DaemonDispatch
  import opened Bits

  /** The messages whose sender waits for an ACK or a NAK, in two kinds, or for a status report. */
  datatype Kind = Registering | Faking | Reporting

  predicate Asks(m: Message, kind: Kind) {
    match kind
    case Registering => m.RequestIrq? || m.ReleaseIrq?
    case Faking => m.IrqSignal?
    case Reporting => m.ServerStatus?
  }

  predicate AsksAnything(m: Message) {
    Asks(m, Registering) || Asks(m, Faking) || Asks(m, Reporting)
  }

  /** The kind of message sent that answers `msg`. */
  predicate Answers(m: Sent, msg: Message) {
    if msg.ServerStatus? then m.Report? else m.Reply?
  }

  // ---------------------------------------------------------------- Replies in order

  /** Where a reply stands among the messages sent, to whom it goes, and whether it is a report. */
  datatype Mark = Mark(at: nat, sock: int, report: bool)

  function ReplyMarks(sent: seq<Sent>): seq<Mark> {
    if |sent| == 0 then []
    else
      var n := |sent| - 1;
      ReplyMarks(sent[..n]) + if sent[n].Signal? then [] else [Mark(n, sent[n].sock, sent[n].Report?)]
  }

  function DueMark(sock: int, msg: Message, at: nat): seq<Mark> {
    if AsksAnything(msg) then [Mark(at, sock, msg.ServerStatus?)] else []
  }

  /** Where the replies ought to stand: right behind each message that asks and that the main loop reads. */
  function DueMarks(read: seq<Reading>): seq<Mark> {
    if |read| == 0 then []
    else
      var r := read[|read| - 1];
      DueMarks(read[..|read| - 1]) + if r.asReply then [] else DueMark(r.sock, r.msg, r.at)
  }

  /** How many messages of a kind have been read, and how many of those as the reply to a signal. */
  function Consumed(read: seq<Reading>, kind: Kind): nat {
    if |read| == 0 then 0
    else Consumed(read[..|read| - 1], kind) + if Asks(read[|read| - 1].msg, kind) then 1 else 0
  }

  function Swallowed(read: seq<Reading>, kind: Kind): nat {
    if |read| == 0 then 0
    else
      var r := read[|read| - 1];
      Swallowed(read[..|read| - 1], kind) + if Asks(r.msg, kind) && r.asReply then 1 else 0
  }

  ghost predicate SignalsFrom(sent: seq<Sent>, start: nat) {
    forall j | start <= j < |sent| :: sent[j].Signal?
  }

  /** The message was read right after a signal had been sent to its sender. */
  ghost predicate BehindSignal(sent: seq<Sent>, r: Reading) {
    0 < r.at <= |sent| && sent[r.at - 1].Signal? && sent[r.at - 1].sock == r.sock
  }

  /** From `start` on, everything was read as the reply to a signal, after `at` messages or more. */
  ghost predicate HandshakesFrom(sent: seq<Sent>, read: seq<Reading>, start: nat, at: nat) {
    forall j | start <= j < |read| :: read[j].asReply && read[j].at >= at && BehindSignal(sent, read[j])
  }

  lemma {:induction false} SignalsAreNoReplies(a: seq<Sent>, b: seq<Sent>)
    requires a <= b && SignalsFrom(b, |a|)
    ensures ReplyMarks(b) == ReplyMarks(a)
    decreases |b|
  {
    if |a| < |b| {
      SignalsAreNoReplies(a, b[..|b| - 1]);
    } else {
      assert a == b;
    }
  }

  lemma {:induction false} HandshakesAreNotDue(sent: seq<Sent>, a: seq<Reading>, b: seq<Reading>, at: nat, kind: Kind)
    requires a <= b && HandshakesFrom(sent, b, |a|, at)
    ensures DueMarks(b) == DueMarks(a)
    ensures Consumed(b, kind) - Swallowed(b, kind) == Consumed(a, kind) - Swallowed(a, kind)
    decreases |b|
  {
    if |a| < |b| {
      HandshakesAreNotDue(sent, a, b[..|b| - 1], at, kind);
    } else {
      assert a == b;
    }
  }

  lemma HandshakesJoin(sent: seq<Sent>, more: seq<Sent>, a: seq<Reading>, b: seq<Reading>, start: nat, at: nat)
    requires sent <= more && a <= b && at <= |sent|
    requires HandshakesFrom(sent, a, start, at) && HandshakesFrom(more, b, |a|, |sent|)
    ensures HandshakesFrom(more, b, start, at)
  {
    forall j | start <= j < |b|
      ensures b[j].asReply && b[j].at >= at && BehindSignal(more, b[j])
    {
      if j < |a| { assert b[j] == a[j] && BehindSignal(sent, a[j]); }
    }
  }

  lemma PassReads(s: State, idx: nat, lines: set<nat>, p: Pass)
    requires idx < |s.crates|
    ensures var r := VmePass(s, idx, lines, p);
            r.Went? ==>
              && s.read <= r.state.read && s.sent <= r.state.sent
              && HandshakesFrom(r.state.sent, r.state.read, |s.read|, |s.sent|)
  {
  }

  /** All that a search reads is read as a reply, right after the signal has been sent. */
  lemma {:induction false} SearchReads(s: State, idx: nat, lines: set<nat>, passes: seq<Pass>)
    requires idx < |s.crates| && s.crates[idx].irqen == lines
    ensures var t := VmeLoop(s, idx, lines, passes).state;
            s.read <= t.read && s.sent <= t.sent && HandshakesFrom(t.sent, t.read, |s.read|, |s.sent|)
    decreases |passes|
  {
    if |passes| > 0 {
      var p := VmePass(s, idx, lines, passes[0]);
      DaemonVme.PassEffect(s, idx, lines, passes[0]);
      PassReads(s, idx, lines, passes[0]);
      if p.Went? {
        SearchReads(p.state, idx, p.lines, passes[1..]);
        var t := VmeLoop(p.state, idx, p.lines, passes[1..]).state;
        HandshakesJoin(p.state.sent, t.sent, p.state.read, t.read, |s.read|, |s.sent|);
      }
    }
  }

  /** A step that serves no message sends no reply, and reads only replies. */
  lemma OtherStepsSendNoReply(s: State, ev: Event)
    requires Inv(s) && Enabled(s, ev) && !(ev.Served? && ev.input.received.Got?)
    ensures s.sent <= Step(s, ev).sent && SignalsFrom(Step(s, ev).sent, |s.sent|)
    ensures s.read <= Step(s, ev).read && HandshakesFrom(Step(s, ev).sent, Step(s, ev).read, |s.read|, |s.sent|)
  {
    if ev.Serviced? {
      var lines := s.crates[ev.idx].irqen;
      DaemonVme.SearchEffect(s, ev.idx, lines, ev.passes);
      DaemonVme.SearchSignals(s, ev.idx, lines, ev.passes);
      SearchReads(s, ev.idx, lines, ev.passes);
    }
  }

  /** What handling a message sends and reads: first the reply, if it asks, and then no other. */
  ghost predicate AnsweredFirst(s: State, t: State, sock: int, msg: Message) {
    && s.sent <= t.sent && s.read <= t.read
    && (AsksAnything(msg) ==>
          |t.sent| > |s.sent| && Answers(t.sent[|s.sent|], msg) && t.sent[|s.sent|].sock == sock)
    && SignalsFrom(t.sent, |s.sent| + if AsksAnything(msg) then 1 else 0)
    && HandshakesFrom(t.sent, t.read, |s.read|, |t.sent|)
  }

  lemma FakeIsAnsweredFirst(s: State, sock: int, sel: Selector, input: ClientInput)
    ensures AnsweredFirst(s, HandleFake(s, sock, sel, input), sock, IrqSignal(sel))
  {
    if s.fakeOk && !input.replyFails {
      var s1 := Send(s, Reply(sock, true));
      assert s1.sent[|s.sent|] == Reply(sock, true);
    }
  }

  lemma MessageIsAnsweredFirst(s: State, sock: int, msg: Message, input: ClientInput)
    ensures AnsweredFirst(s, HandleMessage(s, sock, msg, input), sock, msg)
  {
    match msg
    case IrqSignal(sel) => FakeIsAnsweredFirst(s, sock, sel, input);
    case _ =>
  }

  /** A message that is served is noted, answered at once if it asks, and nothing else is answered. */
  lemma ServedMessage(s: State, ev: Event)
    requires Enabled(s, ev) && ev.Served? && ev.input.received.Got?
    ensures var sock, msg := s.polls[ev.idx].fd, ev.input.received.msg;
            AnsweredFirst(Note(s, sock, msg, false), Step(s, ev), sock, msg)
  {
    var sock, msg := s.polls[ev.idx].fd, ev.input.received.msg;
    MessageIsAnsweredFirst(Note(s, sock, msg, false), sock, msg, ev.input);
  }

  /** A message that is served adds the same mark, if it asks, to the replies and to those due. */
  lemma ServedMarks(s: State, t: State, sock: int, msg: Message, kind: Kind)
    requires AnsweredFirst(Note(s, sock, msg, false), t, sock, msg)
    ensures var mark := DueMark(sock, msg, |s.sent|);
            ReplyMarks(t.sent) == ReplyMarks(s.sent) + mark && DueMarks(t.read) == DueMarks(s.read) + mark
    ensures Consumed(t.read, kind) - Swallowed(t.read, kind)
            == Consumed(s.read, kind) - Swallowed(s.read, kind) + if Asks(msg, kind) then 1 else 0
  {
    var read := Note(s, sock, msg, false).read;
    assert read[..|s.read|] == s.read;
    HandshakesAreNotDue(t.sent, read, t.read, |t.sent|, kind);
    if AsksAnything(msg) {
      var sent := s.sent + [t.sent[|s.sent|]];
      assert sent[..|s.sent|] == s.sent;
      SignalsAreNoReplies(sent, t.sent);
    } else {
      SignalsAreNoReplies(s.sent, t.sent);
    }
  }

  /** Replies stand where they are due after every step. */
  lemma StepRepliesInOrder(s: State, ev: Event)
    requires Inv(s) && Enabled(s, ev) && ReplyMarks(s.sent) == DueMarks(s.read)
    ensures ReplyMarks(Step(s, ev).sent) == DueMarks(Step(s, ev).read)
  {
    if ev.Served? && ev.input.received.Got? {
      ServedMessage(s, ev);
      ServedMarks(s, Step(s, ev), s.polls[ev.idx].fd, ev.input.received.msg, Registering);
    } else {
      OtherStepsSendNoReply(s, ev);
      SignalsAreNoReplies(s.sent, Step(s, ev).sent);
      HandshakesAreNotDue(Step(s, ev).sent, s.read, Step(s, ev).read, |s.sent|, Registering);
    }
  }

  /**
   * In every reachable state the replies sent are, one for one and in order, those due: each stands
   * right behind a message that asks and that the main loop has read, and goes to its sender.
   */
  lemma {:induction false} RunRepliesInOrder(s: State, evs: seq<Event>)
    requires Inv(s) && EnabledRun(s, evs) && ReplyMarks(s.sent) == DueMarks(s.read)
    ensures ReplyMarks(Run(s, evs).sent) == DueMarks(Run(s, evs).read)
    decreases |evs|
  {
    if |evs| > 0 {
      StepRepliesInOrder(s, evs[0]);
      StepKeepsInv(s, evs[0]);
      RunRepliesInOrder(Step(s, evs[0]), evs[1..]);
    }
  }

  // ---------------------------------------------------------------- Replies counted

  /** The replies attempted while messages of a kind are served. */
  function Attempts(s: State, ev: Event, kind: Kind): int
    requires Enabled(s, ev)
  {
    if ev.Served? && ev.input.received.Got? && Asks(ev.input.received.msg, kind)
    then |ReplyMarks(Step(s, ev).sent)| - |ReplyMarks(s.sent)| else 0
  }

  function TotalAttempts(s: State, evs: seq<Event>, kind: Kind): int
    requires EnabledRun(s, evs)
    decreases |evs|
  {
    if |evs| == 0 then 0 else Attempts(s, evs[0], kind) + TotalAttempts(Step(s, evs[0]), evs[1..], kind)
  }

  lemma StepConservesReplies(s: State, ev: Event, kind: Kind)
    requires Inv(s) && Enabled(s, ev)
    ensures Consumed(Step(s, ev).read, kind) - Swallowed(Step(s, ev).read, kind)
            == Consumed(s.read, kind) - Swallowed(s.read, kind) + Attempts(s, ev, kind)
  {
    if ev.Served? && ev.input.received.Got? {
      ServedMessage(s, ev);
      ServedMarks(s, Step(s, ev), s.polls[ev.idx].fd, ev.input.received.msg, kind);
    } else {
      OtherStepsSendNoReply(s, ev);
      HandshakesAreNotDue(Step(s, ev).sent, s.read, Step(s, ev).read, |s.sent|, kind);
    }
  }

  lemma {:induction false} RunConservesReplies(s: State, evs: seq<Event>, kind: Kind)
    requires Inv(s) && EnabledRun(s, evs)
    ensures Consumed(Run(s, evs).read, kind) - Swallowed(Run(s, evs).read, kind)
            == Consumed(s.read, kind) - Swallowed(s.read, kind) + TotalAttempts(s, evs, kind)
    decreases |evs|
  {
    if |evs| > 0 {
      StepConservesReplies(s, evs[0], kind);
      StepKeepsInv(s, evs[0]);
      RunConservesReplies(Step(s, evs[0]), evs[1..], kind);
    }
  }

  /**
   * From start-up, the replies attempted to requests and releases are those consumed less those
   * swallowed, and likewise for faked interrupts and for status reports. There are no other replies.
   */
  lemma RepliesAreConserved(s: State, evs: seq<Event>)
    requires Initial(s) && EnabledRun(s, evs)
    ensures var t := Run(s, evs);
            && (forall kind: Kind :: TotalAttempts(s, evs, kind) == Consumed(t.read, kind) - Swallowed(t.read, kind))
            && ReplyMarks(t.sent) == DueMarks(t.read)
            && |ReplyMarks(t.sent)| == TotalAttempts(s, evs, Registering) + TotalAttempts(s, evs, Faking)
                                       + TotalAttempts(s, evs, Reporting)
  {
    InitialInv(s);
    forall kind: Kind
      ensures TotalAttempts(s, evs, kind) == Consumed(Run(s, evs).read, kind) - Swallowed(Run(s, evs).read, kind)
    {
      RunConservesReplies(s, evs, kind);
    }
    RunRepliesInOrder(s, evs);
    DueIsConsumedLessSwallowed(Run(s, evs).read);
  }

  lemma {:induction false} DueIsConsumedLessSwallowed(read: seq<Reading>)
    ensures |DueMarks(read)| == Consumed(read, Registering) - Swallowed(read, Registering)
                                + Consumed(read, Faking) - Swallowed(read, Faking)
                                + Consumed(read, Reporting) - Swallowed(read, Reporting)
  {
    if |read| > 0 { DueIsConsumedLessSwallowed(read[..|read| - 1]); }
  }

  // ---------------------------------------------------------------- Which messages are answered

  /** The next thing sent after the message was read is the answer to its sender. */
  ghost predicate Answered(sent: seq<Sent>, r: Reading) {
    r.at < |sent| && Answers(sent[r.at], r.msg) && sent[r.at].sock == r.sock
  }

  /** The event is the main loop reading a message, which is the first one that the step reads. */
  predicate ReadByMainLoop(s: State, ev: Event, j: nat) {
    ev.Served? && ev.input.received.Got? && j == |s.read|
  }

  /** Everything else that a step reads is read as a reply, right behind a signal to its own sender. */
  lemma OthersAreReadAsReplies(s: State, ev: Event, j: nat)
    requires Inv(s) && Enabled(s, ev) && |s.read| <= j < |Step(s, ev).read|
    ensures Step(s, ev).read[j].asReply <==> !ReadByMainLoop(s, ev, j)
    ensures Step(s, ev).read[j].asReply ==> BehindSignal(Step(s, ev).sent, Step(s, ev).read[j])
  {
    if ev.Served? && ev.input.received.Got? {
      ServedMessage(s, ev);
    } else {
      OtherStepsSendNoReply(s, ev);
    }
  }

  /**
   * A message that asks is answered in the step that reads it if and only if it is the one that the
   * main loop reads. Otherwise a signal has just been sent to its sender, who owes the reply to that.
   */
  lemma AnsweredUnlessSwallowed(s: State, ev: Event, j: nat)
    requires Inv(s) && Enabled(s, ev) && |s.read| <= j < |Step(s, ev).read|
    requires AsksAnything(Step(s, ev).read[j].msg)
    ensures Answered(Step(s, ev).sent, Step(s, ev).read[j]) <==> ReadByMainLoop(s, ev, j)
    ensures !ReadByMainLoop(s, ev, j) ==> BehindSignal(Step(s, ev).sent, Step(s, ev).read[j])
  {
    OthersAreReadAsReplies(s, ev, j);
    if ev.Served? && ev.input.received.Got? {
      ServedMessage(s, ev);
    } else {
      OtherStepsSendNoReply(s, ev);
    }
  }

  /** Whatever was read as a reply was read right behind a signal to its sender. */
  ghost predicate RepliesFollowSignals(sent: seq<Sent>, read: seq<Reading>) {
    forall j | 0 <= j < |read| && read[j].asReply :: BehindSignal(sent, read[j])
  }

  lemma StepRepliesFollowSignals(s: State, ev: Event)
    requires Inv(s) && Enabled(s, ev) && RepliesFollowSignals(s.sent, s.read)
    ensures RepliesFollowSignals(Step(s, ev).sent, Step(s, ev).read)
  {
    var t := Step(s, ev);
    if ev.Served? && ev.input.received.Got? {
      ServedMessage(s, ev);
    } else {
      OtherStepsSendNoReply(s, ev);
    }
    forall j | 0 <= j < |t.read| && t.read[j].asReply
      ensures BehindSignal(t.sent, t.read[j])
    {
      if j < |s.read| {
        assert t.read[j] == s.read[j] && BehindSignal(s.sent, s.read[j]);
      } else {
        OthersAreReadAsReplies(s, ev, j);
      }
    }
  }

  /** Over every run, a client loses a message only while a signal to it has not been replied to. */
  lemma {:induction false} RunRepliesFollowSignals(s: State, evs: seq<Event>)
    requires Inv(s) && EnabledRun(s, evs) && RepliesFollowSignals(s.sent, s.read)
    ensures RepliesFollowSignals(Run(s, evs).sent, Run(s, evs).read)
    decreases |evs|
  {
    if |evs| > 0 {
      StepRepliesFollowSignals(s, evs[0]);
      StepKeepsInv(s, evs[0]);
      RunRepliesFollowSignals(Step(s, evs[0]), evs[1..]);
    }
  }

  /** A step that reads a message as a reply changes no entry; if the message asks, its signal fails with EBADMSG. */
  lemma SwallowedHasNoEffect(s: State, ev: Event, j: nat)
    requires Inv(s) && Enabled(s, ev) && |s.read| <= j < |Step(s, ev).read| && Step(s, ev).read[j].asReply
    ensures Step(s, ev).table == s.table
    ensures var m := Step(s, ev).read[j].msg;
            AsksAnything(m) ==> HandshakeCode(Delivered(Got(m))) == -ErrorNumbers.EBADMSG
  {
    if DaemonDispatch.TouchesTable(ev) {
      OnlyFakesReadReplies(s, ev);
    } else {
      DaemonDispatch.OtherEventsKeepTable(s, ev);
    }
  }

  lemma OnlyFakesReadReplies(s: State, ev: Event)
    requires Inv(s) && Enabled(s, ev) && DaemonDispatch.TouchesTable(ev)
    ensures forall j | |s.read| <= j < |Step(s, ev).read| :: !Step(s, ev).read[j].asReply
  {
  }

  // ---------------------------------------------------------------- A run that swallows a request

  /** A reading of line 3, the client's next request read as the reply, and the line still asserted. */
  function StuckPass(): Pass {
    Pass(8, 0, Delivered(Got(RequestIrq(Selector(1, 16, ANYVECTOR, 0)))), 8)
  }

  /** A client registers line 3 of crate 0, which then interrupts. */
  function SwallowingRun(): seq<Event> {
    var request := Served(3, DaemonRuns.Asking(DaemonRuns.LineOfFirst()));
    [Accepted(6, false), request, Serviced(0, [StuckPass(), StuckPass()])]
  }

  /** The state after that: one signal more, the request read as its reply, and line 3 of crate 0 off. */
  function AfterSearch(): State {
    var s := DaemonRuns.Registered();
    s.(
      crates := [Crate(0, {}), Crate(1, {3})],
      sent := s.sent + [Signal(6, Selector(1, 8, 0, 0))],
      read := s.read + [Reading(6, RequestIrq(Selector(1, 16, ANYVECTOR, 0)), true, 2)])
  }

  lemma SearchSwallows()
    ensures var s, search := DaemonRuns.Registered(), Serviced(0, [StuckPass(), StuckPass()]);
            Enabled(s, search) && Step(s, search) == AfterSearch()
  {
    var s, p := DaemonRuns.Registered(), StuckPass();
    DaemonRuns.LineOfFirstIsLegal();
    var sel := Concrete(0, 3, 0);
    DaemonVme.ConcreteIsConcrete(0, 3, 0);
    assert BitSet(8) == {3} && sel == Selector(1, 8, 0, 0);
    assert Answer(s.table, sel) == Some(s.table[0]);
    var r := VmePass(s, 0, {3}, p);
    assert r.Went? && r.lines == {} && r.state == AfterSearch();
    assert VmePass(r.state, 0, {}, p) == Quiet;
    assert [p, p][1..] == [p];
    assert VmeLoop(r.state, 0, {}, [p]).outcome == Returned;
  }

  lemma RunOfThree(s: State, a: Event, b: Event, c: Event)
    requires Enabled(s, a) && Enabled(Step(s, a), b) && Enabled(Step(Step(s, a), b), c)
    ensures EnabledRun(s, [a, b, c]) && Run(s, [a, b, c]) == Step(Step(Step(s, a), b), c)
  {
    DaemonRuns.RunOfCons(Step(Step(s, a), b), c, []);
    DaemonRuns.RunOfCons(Step(s, a), b, [c]);
    DaemonRuns.RunOfCons(s, a, [b, c]);
    assert [a] + [b, c] == [a, b, c] && [b] + [c] == [b, c] && [c] + [] == [c];
  }

  lemma SwallowingRunEnds()
    ensures Initial(DaemonRuns.TwoCrates()) && EnabledRun(DaemonRuns.TwoCrates(), SwallowingRun())
    ensures Run(DaemonRuns.TwoCrates(), SwallowingRun()) == AfterSearch()
  {
    var evs := SwallowingRun();
    DaemonRuns.RequestIsGranted();
    SearchSwallows();
    RunOfThree(DaemonRuns.TwoCrates(), evs[0], evs[1], evs[2]);
  }

  lemma OneOfTwoSwallowed(a: Reading, b: Reading)
    requires Asks(a.msg, Registering) && Asks(b.msg, Registering) && !a.asReply && b.asReply
    ensures Consumed([a, b], Registering) == 2 && Swallowed([a, b], Registering) == 1
  {
    assert [a, b][..1] == [a] && [a][..0] == [];
    assert Consumed([], Registering) == 0 && Swallowed([], Registering) == 0;
    assert Consumed([a], Registering) == 1 && Swallowed([a], Registering) == 0;
  }

  /** Two requests are consumed and one is answered. The other has no entry, and the line is off. */
  lemma RequestIsSwallowed()
    ensures var s, evs := DaemonRuns.TwoCrates(), SwallowingRun();
            && Initial(s) && EnabledRun(s, evs)
            && var t := Run(s, evs);
               && Consumed(t.read, Registering) == 2 && Swallowed(t.read, Registering) == 1
               && TotalAttempts(s, evs, Registering) == 1
               && |t.table| == 1 && |t.crates| == 2 && t.crates[0].irqen == {}
  {
    SwallowingRunEnds();
    var t := Run(DaemonRuns.TwoCrates(), SwallowingRun());
    OneOfTwoSwallowed(t.read[0], t.read[1]);
    assert t.read == [t.read[0], t.read[1]];
    RepliesAreConserved(DaemonRuns.TwoCrates(), SwallowingRun());
  }
}
