/** What every step of the daemon keeps: the poll list, the vector table and the enabled lines agree. */
module DaemonInvariants {
  import opened Selectors
  import opened VectorTableSpec
  import opened Messages
  import opened DaemonSpec
  import DaemonVme

  /** No two slots of the poll list hold the same descriptor, and no client holds zero. */
  ghost predicate GoodPolls(s: State) {
    && |s.polls| > |s.crates|
    && (forall i, j | 0 <= i < j < |s.polls| :: s.polls[i].fd != s.polls[j].fd)
    && (forall i | |s.crates| < i < |s.polls| :: s.polls[i].fd != 0)
  }

  ghost predicate IsClient(s: State, fd: int) {
    exists i :: |s.crates| < i < |s.polls| && s.polls[i].fd == fd
  }

  /** Every entry belongs to a connected client. */
  ghost predicate OwnersConnected(s: State) {
    forall i | 0 <= i < |s.table| :: IsClient(s, s.table[i].data)
  }

  ghost predicate GoodTable(t: seq<Entry>) {
    AllLegal(t) && NoEarlierCovers(t)
  }

  /** No crate has a line enabled that no entry names. */
  ghost predicate LinesRegistered(s: State) {
    forall i | 0 <= i < |s.crates| :: s.crates[i].irqen <= AllLines(s.table)
  }

  ghost predicate Inv(s: State) {
    && !s.exited
    && GoodPolls(s)
    && OwnersConnected(s)
    && GoodTable(s.table)
    && LinesRegistered(s)
  }

  // ---------------------------------------------------------------- The table

  lemma RegisterKeepsTable(t: seq<Entry>, sd: int, req: Selector, canAppend: bool)
    requires GoodTable(t)
    ensures GoodTable(Register(t, sd, req, canAppend))
    ensures AllLines(t) <= AllLines(Register(t, sd, req, canAppend))
    ensures RegisterCode(t, sd, req, canAppend) == 0 ==>
              Irqs(req) <= AllLines(Register(t, sd, req, canAppend))
  {
    RegisterKeepsOrder(t, sd, req, canAppend);
    LinesOfAppend(t, Entry(req, sd), 0);
  }

  lemma ReleaseKeepsTable(t: seq<Entry>, sd: int, req: Selector)
    requires GoodTable(t)
    ensures GoodTable(Release(t, sd, req))
    ensures forall e | e in Release(t, sd, req) :: e in t
  {
    if ReleaseCode(t, sd, req) == 0 {
      RemoveKeepsOrder(t, FirstEqual(t, req));
    }
  }

  lemma WithoutKeepsTable(t: seq<Entry>, sd: int)
    requires GoodTable(t)
    ensures GoodTable(Without(t, sd))
  {
    WithoutKeepsOrder(t, sd);
    var r := Without(t, sd);
    forall i | 0 <= i < |r| ensures Legal(r[i].selector) && r[i].data != 0 { assert r[i] in t; }
  }

  // ---------------------------------------------------------------- Enabled lines

  lemma RecomputeKeepsLines(s: State)
    ensures LinesRegistered(DisableUnusedInterrupts(s))
  {
    forall i | 0 <= i < |s.crates|
      ensures Lines(s.table, s.crates[i].number) * LOW8 <= AllLines(s.table)
    {
      LinesAreLegal(s.table, s.crates[i].number);
    }
  }

  /** The eight-bit masks lose nothing: a recomputation enables exactly the registered lines. */
  lemma RecomputeIsExact(s: State, i: nat)
    requires AllLegal(s.table) && i < |s.crates|
    ensures DisableUnusedInterrupts(s).crates[i].irqen == Lines(s.table, s.crates[i].number)
  {
    LinesAreLegal(s.table, s.crates[i].number);
  }

  // ---------------------------------------------------------------- Steps

  lemma SamePollsKeepOwners(s: State, t: State)
    requires OwnersConnected(s) && t.polls == s.polls && |t.crates| == |s.crates|
    requires forall e | e in t.table :: e in s.table || IsClient(s, e.data)
    ensures OwnersConnected(t)
  {
    forall i | 0 <= i < |t.table|
      ensures IsClient(t, t.table[i].data)
    {
      assert t.table[i] in t.table;
      if t.table[i] in s.table {
        var j: nat :| j < |s.table| && s.table[j] == t.table[i];
        assert IsClient(s, s.table[j].data);
      }
    }
  }

  lemma RemoveFdKeepsPolls(s: State, idx: nat)
    requires GoodPolls(s) && |s.crates| < idx < |s.polls|
    ensures GoodPolls(RemoveFd(s, idx)) && !RemoveFd(s, idx).exited == !s.exited
  {
  }

  /** Removing a client's slot loses that client and no other. */
  lemma RemoveFdKeepsOthers(s: State, idx: nat, fd: int)
    requires GoodPolls(s) && |s.crates| < idx < |s.polls|
    requires IsClient(s, fd) && fd != s.polls[idx].fd
    ensures IsClient(RemoveFd(s, idx), fd)
  {
    var k: nat :| |s.crates| < k < |s.polls| && s.polls[k].fd == fd;
    assert RemoveFd(s, idx).polls[if k < idx then k else k - 1].fd == fd;
  }

  /** Removing a client's slot removes exactly that client. */
  lemma RemoveFdRemovesOne(s: State, idx: nat)
    requires GoodPolls(s) && |s.crates| < idx < |s.polls|
    ensures forall fd :: IsClient(RemoveFd(s, idx), fd) <==> IsClient(s, fd) && fd != s.polls[idx].fd
  {
    var t := RemoveFd(s, idx);
    forall fd
      ensures IsClient(t, fd) <==> IsClient(s, fd) && fd != s.polls[idx].fd
    {
      if IsClient(s, fd) && fd != s.polls[idx].fd { RemoveFdKeepsOthers(s, idx, fd); }
      if IsClient(t, fd) {
        var k: nat :| |t.crates| < k < |t.polls| && t.polls[k].fd == fd;
        assert s.polls[if k < idx then k else k + 1].fd == fd;
      }
    }
  }

  /** Accepting a client adds exactly that client, which owns no entry. */
  lemma AppendFdAddsOne(s: State, fd: int, flags: bool)
    requires Inv(s) && Enabled(s, Accepted(fd, flags))
    ensures forall c :: IsClient(AppendFd(s, fd, flags), c) <==> IsClient(s, c) || c == fd
    ensures forall i | 0 <= i < |s.table| :: s.table[i].data != fd
  {
    var t := AppendFd(s, fd, flags);
    assert t.polls[|s.polls|].fd == fd;
    forall c | IsClient(s, c) ensures IsClient(t, c) { KeptSlotsKeepClients(s, t, c); }
    forall i | 0 <= i < |s.table| ensures s.table[i].data != fd { assert IsClient(s, s.table[i].data); }
  }

  lemma HangUpKeepsInv(s: State, idx: nat)
    requires Inv(s) && |s.crates| < idx < |s.polls|
    ensures Inv(HangUp(s, idx, s.polls[idx].fd))
  {
    var sock := s.polls[idx].fd;
    var s1 := RemoveFd(s, idx).(table := Without(s.table, sock));
    WithoutKeepsTable(s.table, sock);
    RemoveFdKeepsPolls(s, idx);
    forall i | 0 <= i < |s1.table|
      ensures IsClient(s1, s1.table[i].data)
    {
      assert s1.table[i] in s.table;
      var j: nat :| j < |s.table| && s.table[j] == s1.table[i];
      assert IsClient(s, s.table[j].data);
      RemoveFdKeepsOthers(s, idx, s.table[j].data);
    }
    RecomputeKeepsLines(s1);
    SamePollsKeepOwners(s1, HangUp(s, idx, sock));
  }

  lemma RequestKeepsInv(s: State, idx: nat, sel: Selector, input: ClientInput)
    requires Inv(s) && |s.crates| < idx < |s.polls|
    ensures Inv(HandleRequest(s, s.polls[idx].fd, sel, input))
  {
    var sock := s.polls[idx].fd;
    RegisterKeepsTable(s.table, sock, sel, CanAppend(s, input));
    SamePollsKeepOwners(s, HandleRequest(s, sock, sel, input));
  }

  lemma ReleaseKeepsInv(s: State, sock: int, sel: Selector)
    requires Inv(s)
    ensures Inv(HandleRelease(s, sock, sel))
  {
    ReleaseKeepsTable(s.table, sock, sel);
    RecomputeKeepsLines(s.(table := Release(s.table, sock, sel)));
    SamePollsKeepOwners(s, HandleRelease(s, sock, sel));
  }

  lemma FakeKeepsInv(s: State, sock: int, sel: Selector, input: ClientInput)
    requires Inv(s)
    ensures Inv(HandleFake(s, sock, sel, input))
  {
    SamePollsKeepOwners(s, HandleFake(s, sock, sel, input));
  }

  lemma SearchKeepsInv(s: State, idx: nat, passes: seq<Pass>)
    requires Inv(s) && idx < |s.crates|
    ensures Inv(ProcessVme(s, idx, passes).state)
  {
    var lines := s.crates[idx].irqen;
    LinesAreLegal(s.table, 0);
    DaemonVme.SearchIsNeverFatal(s, idx, lines, passes);
    DaemonVme.SearchEffect(s, idx, lines, passes);
    SamePollsKeepOwners(s, ProcessVme(s, idx, passes).state);
  }

  /** Slots that keep their descriptors keep their clients. */
  lemma KeptSlotsKeepClients(s: State, t: State, fd: int)
    requires IsClient(s, fd) && |t.crates| == |s.crates| && |t.polls| >= |s.polls|
    requires forall i | 0 <= i < |s.polls| :: t.polls[i].fd == s.polls[i].fd
    ensures IsClient(t, fd)
  {
    var k: nat :| |s.crates| < k < |s.polls| && s.polls[k].fd == fd;
    assert t.polls[k].fd == fd;
  }

  lemma AcceptKeepsInv(s: State, fd: int, flags: bool)
    requires Inv(s) && Enabled(s, Accepted(fd, flags))
    ensures Inv(AppendFd(s, fd, flags))
  {
    var t := AppendFd(s, fd, flags);
    forall i | 0 <= i < |t.table|
      ensures IsClient(t, t.table[i].data)
    {
      assert IsClient(s, s.table[i].data);
      KeptSlotsKeepClients(s, t, s.table[i].data);
    }
  }

  lemma PollKeepsInv(s: State, ready: seq<bool>)
    requires Inv(s) && |ready| == |s.polls|
    ensures Inv(s.(polls := SetReady(s.polls, ready)))
  {
    var t := s.(polls := SetReady(s.polls, ready));
    forall i | 0 <= i < |t.table|
      ensures IsClient(t, t.table[i].data)
    {
      assert IsClient(s, s.table[i].data);
      KeptSlotsKeepClients(s, t, s.table[i].data);
    }
  }

  lemma NoteKeepsInv(s: State, sock: int, msg: Message, asReply: bool)
    requires Inv(s)
    ensures Inv(Note(s, sock, msg, asReply))
  {
    SamePollsKeepOwners(s, Note(s, sock, msg, asReply));
  }

  lemma MessageKeepsInv(s: State, idx: nat, msg: Message, input: ClientInput)
    requires Inv(s) && |s.crates| < idx < |s.polls|
    ensures Inv(HandleMessage(s, s.polls[idx].fd, msg, input))
  {
    var sock := s.polls[idx].fd;
    match msg
    case RequestIrq(sel) => RequestKeepsInv(s, idx, sel, input);
    case ReleaseIrq(sel) => ReleaseKeepsInv(s, sock, sel);
    case IrqSignal(sel) => FakeKeepsInv(s, sock, sel, input);
    case ServerStatus => SamePollsKeepOwners(s, HandleMessage(s, sock, msg, input));
    case _ =>
  }

  /** Every step that can happen keeps the invariant; in particular no fatal exit is taken. */
  lemma StepKeepsInv(s: State, ev: Event)
    requires Inv(s) && Enabled(s, ev)
    ensures Inv(Step(s, ev))
  {
    match ev
    case Polled(ready) => PollKeepsInv(s, ready);
    case AcceptFailed =>
    case Accepted(fd, flags) => AcceptKeepsInv(s, fd, flags);
    case Serviced(idx, passes) => SearchKeepsInv(s, idx, passes);
    case Served(idx, input) =>
      match input.received {
        case ReadError(_) =>
        case Closed => HangUpKeepsInv(s, idx);
        case Got(msg) =>
          NoteKeepsInv(s, s.polls[idx].fd, msg, false);
          MessageKeepsInv(Note(s, s.polls[idx].fd, msg, false), idx, msg, input);
      }
  }

  lemma InitialInv(s: State)
    requires Initial(s)
    ensures Inv(s)
  {
  }

  /** Every reachable state keeps the invariant. */
  lemma {:induction false} RunKeepsInv(s: State, evs: seq<Event>)
    requires Inv(s) && EnabledRun(s, evs)
    ensures Inv(Run(s, evs))
    decreases |evs|
  {
    if |evs| > 0 {
      StepKeepsInv(s, evs[0]);
      RunKeepsInv(Step(s, evs[0]), evs[1..]);
    }
  }
}
