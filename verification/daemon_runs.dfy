/** What holds over whole runs of the daemon. */
module DaemonRuns {
  import opened Bits
  import ErrorNumbers
  import opened Selectors
  import opened VectorTableSpec
  import opened Messages
  import opened PollLists
  import opened DaemonSpec
  import DaemonVme
  import opened DaemonInvariants

  // ---------------------------------------------------------------- Safety and layout

  /** The crates and the server socket stay where start-up put them. */
  ghost predicate SameFront(s: State, t: State) {
    && t.pid == s.pid
    && |t.crates| == |s.crates| < |s.polls|
    && |t.crates| < |t.polls|
    && (forall i | 0 <= i < |s.crates| :: t.crates[i].number == s.crates[i].number)
    && (forall i | 0 <= i <= |s.crates| :: t.polls[i].fd == s.polls[i].fd)
  }

  lemma MessageKeepsFront(s: State, sock: int, msg: Message, input: ClientInput)
    requires |s.crates| < |s.polls|
    ensures SameFront(s, HandleMessage(s, sock, msg, input)) && HandleMessage(s, sock, msg, input).polls == s.polls
  {
  }

  lemma MessagesKeepFront(s: State, idx: nat, input: ClientInput)
    requires |s.crates| < idx < |s.polls| && input.received != Closed
    ensures SameFront(s, ServeClient(s, idx, input)) && ServeClient(s, idx, input).polls == s.polls
  {
    if input.received.Got? {
      var sock, msg := s.polls[idx].fd, input.received.msg;
      MessageKeepsFront(Note(s, sock, msg, false), sock, msg, input);
    }
  }

  lemma HangUpKeepsFront(s: State, idx: nat)
    requires |s.crates| < idx < |s.polls| && !s.exited
    ensures var t := HangUp(s, idx, s.polls[idx].fd);
            SameFront(s, t) && |t.polls| == |s.polls| - 1
  {
  }

  lemma StepKeepsFront(s: State, ev: Event)
    requires Inv(s) && Enabled(s, ev)
    ensures SameFront(s, Step(s, ev))
  {
    match ev
    case Serviced(idx, passes) => DaemonVme.SearchEffect(s, idx, s.crates[idx].irqen, passes);
    case Served(idx, input) =>
      if input.received == Closed { HangUpKeepsFront(s, idx); } else { MessagesKeepFront(s, idx, input); }
    case _ =>
  }

  lemma {:induction false} RunKeepsFront(s: State, evs: seq<Event>)
    requires Inv(s) && EnabledRun(s, evs)
    ensures SameFront(s, Run(s, evs))
    decreases |evs|
  {
    if |evs| > 0 {
      StepKeepsInv(s, evs[0]);
      StepKeepsFront(s, evs[0]);
      RunKeepsFront(Step(s, evs[0]), evs[1..]);
    }
  }

  /**
   * In every reachable state no fatal exit has been taken, the poll list still has its layout,
   * every owner in the table is a connected client, and every enabled line is one of IRQ1 to IRQ7
   * that some registered entry names.
   */
  lemma ReachableStatesAreSafe(s: State, evs: seq<Event>)
    requires Initial(s) && EnabledRun(s, evs)
    ensures var t := Run(s, evs);
            && Inv(t) && SameFront(s, t)
            && forall i | 0 <= i < |t.crates| ::
                 t.crates[i].irqen <= AllLines(t.table) && t.crates[i].irqen <= DaemonVme.IRQ_LINES
  {
    InitialInv(s);
    RunKeepsInv(s, evs);
    RunKeepsFront(s, evs);
    LinesAreLegal(Run(s, evs).table, 0);
  }

  // ---------------------------------------------------------------- The dispatch pass

  /** A socket that is accepted is new, and an interrupt search ends. */
  predicate EnvironmentAllows(s: State, idx: nat, x: SlotInput) {
    && (idx == |s.crates| && x.client >= 0 ==> Enabled(s, Accepted(x.client, x.flags)))
    && (idx < |s.crates| ==> ProcessVme(s, idx, x.passes).outcome != Busy)
  }

  /** The environment does so at every ready slot that the walk meets. */
  predicate EnvironmentAllowsPass(s: State, idx: nat, nevents: nat, env: nat -> SlotInput, j: nat)
    decreases nevents, |s.polls| - idx
  {
    if idx >= |s.polls| || nevents == 0 || s.exited then true
    else if !s.polls[idx].ready then EnvironmentAllowsPass(s, idx + 1, nevents, env, j)
    else
      var ev := EventFor(s, idx, env(j));
      EnvironmentAllows(s, idx, env(j)) &&
      (Enabled(s, ev) ==> EnvironmentAllowsPass(Step(s, ev), idx + 1, nevents - 1, env, j + 1))
  }

  lemma SlotCanBeServed(s: State, idx: nat, x: SlotInput)
    requires Inv(s) && idx < |s.polls| && EnvironmentAllows(s, idx, x)
    ensures Enabled(s, EventFor(s, idx, x))
  {
  }

  lemma SameFrontIsTransitive(s: State, t: State, u: State)
    requires SameFront(s, t) && SameFront(t, u)
    ensures SameFront(s, u)
  {
  }

  lemma RunOfCons(s: State, ev: Event, rest: seq<Event>)
    requires Enabled(s, ev)
    ensures EnabledRun(s, [ev] + rest) <==> EnabledRun(Step(s, ev), rest)
    ensures EnabledRun(Step(s, ev), rest) ==> Run(s, [ev] + rest) == Run(Step(s, ev), rest)
  {
    assert ([ev] + rest)[1..] == rest;
  }

  /** What is left of the walk, from slot `idx` on, ends in `end`. */
  ghost predicate WalkEndsIn(s: State, idx: nat, nevents: nat, env: nat -> SlotInput, j: nat, end: State) {
    && EnabledRun(s, PassEvents(s, idx, nevents, env, j))
    && Run(s, PassEvents(s, idx, nevents, env, j)) == end
  }

  /** Handling a ready slot, and passing over another, leaves a walk to the same end. */
  lemma WalkOn(s: State, idx: nat, nevents: nat, env: nat -> SlotInput, j: nat, end: State)
    requires WalkEndsIn(s, idx, nevents, env, j, end) && idx < |s.polls| && nevents != 0 && !s.exited
    ensures !s.polls[idx].ready ==> WalkEndsIn(s, idx + 1, nevents, env, j, end)
    ensures s.polls[idx].ready ==>
              && Enabled(s, EventFor(s, idx, env(j)))
              && WalkEndsIn(Step(s, EventFor(s, idx, env(j))), idx + 1, nevents - 1, env, j + 1, end)
  {
    if s.polls[idx].ready {
      var ev := EventFor(s, idx, env(j));
      assert PassEvents(s, idx, nevents, env, j)[0] == ev;
      RunOfCons(s, ev, PassEvents(Step(s, ev), idx + 1, nevents - 1, env, j + 1));
    }
  }

  /**
   * Although handlers add and remove slots while the walk is under way, each of them gets a slot of
   * its own section, no fatal exit is taken and the poll list keeps its layout.
   */
  lemma {:induction false} DispatchPassIsSafe(s: State, idx: nat, nevents: nat, env: nat -> SlotInput, j: nat)
    requires Inv(s) && EnvironmentAllowsPass(s, idx, nevents, env, j)
    ensures var evs := PassEvents(s, idx, nevents, env, j);
            |evs| <= nevents && EnabledRun(s, evs) && Inv(Run(s, evs)) && SameFront(s, Run(s, evs))
    decreases nevents, |s.polls| - idx
  {
    if idx < |s.polls| && nevents != 0 {
      if !s.polls[idx].ready {
        DispatchPassIsSafe(s, idx + 1, nevents, env, j);
      } else {
        var ev := EventFor(s, idx, env(j));
        SlotCanBeServed(s, idx, env(j));
        StepKeepsInv(s, ev);
        StepKeepsFront(s, ev);
        DispatchPassIsSafe(Step(s, ev), idx + 1, nevents - 1, env, j + 1);
        var rest := PassEvents(Step(s, ev), idx + 1, nevents - 1, env, j + 1);
        RunOfCons(s, ev, rest);
        SameFrontIsTransitive(s, Step(s, ev), Run(Step(s, ev), rest));
      }
    }
  }

  /** A newly accepted client owns no entry, even when its descriptor has been used before. */
  lemma NewClientOwnsNothing(s: State, fd: int, flags: bool, i: nat)
    requires Inv(s) && Enabled(s, Accepted(fd, flags))
    requires i < |Step(s, Accepted(fd, flags)).table|
    ensures Step(s, Accepted(fd, flags)).table[i].data != fd
  {
    assert IsClient(s, s.table[i].data);
  }

  // ---------------------------------------------------------------- Registered and enabled

  /** Per crate, the registered lines that are off for a known reason. */
  type Exemptions = seq<set<nat>>

  /**
   * A search exempts the lines it masks, a lost acknowledgement exempts the request's lines that
   * are off, a delivered one enables them, and a recomputation starts afresh.
   */
  function ExemptStep(s: State, ev: Event, ex: Exemptions): Exemptions
    requires Enabled(s, ev) && |ex| == |s.crates|
  {
    match ev
    case Serviced(idx, passes) =>
      ex[idx := ex[idx] + (s.crates[idx].irqen - ProcessVme(s, idx, passes).lines)]
    case Served(idx, input) => (
      match input.received
      case Closed => seq(|ex|, _ => {})
      case Got(ReleaseIrq(_)) => seq(|ex|, _ => {})
      case Got(RequestIrq(sel)) =>
        if RegisterCode(s.table, s.polls[idx].fd, sel, CanAppend(s, input)) < 0 then ex
        else if input.replyFails then
          seq(|ex|, i requires 0 <= i < |ex| => ex[i] + (Irqs(sel) - s.crates[i].irqen))
        else
          seq(|ex|, i requires 0 <= i < |ex| => ex[i] - Irqs(sel))
      case _ => ex)
    case _ => ex
  }

  function Exempt(s: State, evs: seq<Event>, ex: Exemptions): Exemptions
    requires Inv(s) && EnabledRun(s, evs) && |ex| == |s.crates|
    decreases |evs|
  {
    if |evs| == 0 then ex
    else
      StepKeepsInv(s, evs[0]);
      StepKeepsFront(s, evs[0]);
      Exempt(Step(s, evs[0]), evs[1..], ExemptStep(s, evs[0], ex))
  }

  /** Every registered line of an open crate is either enabled or exempt, never both. */
  ghost predicate Accounted(s: State, ex: Exemptions) {
    && |ex| == |s.crates|
    && forall i | 0 <= i < |s.crates| ::
         && ex[i] * s.crates[i].irqen == {}
         && Lines(s.table, s.crates[i].number) <= s.crates[i].irqen + ex[i]
  }

  lemma RecomputeAccounts(s: State, ex: Exemptions)
    requires AllLegal(s.table) && |ex| == |s.crates| && forall i | 0 <= i < |ex| :: ex[i] == {}
    ensures Accounted(DisableUnusedInterrupts(s), ex)
  {
    forall i | 0 <= i < |s.crates|
      ensures DisableUnusedInterrupts(s).crates[i].irqen == Lines(s.table, s.crates[i].number)
    {
      RecomputeIsExact(s, i);
    }
  }

  lemma RequestAccounts(s: State, idx: nat, sel: Selector, input: ClientInput, ex: Exemptions)
    requires Inv(s) && Accounted(s, ex) && |s.crates| < idx < |s.polls|
    requires input.received == Got(RequestIrq(sel))
    ensures Accounted(Step(s, Served(idx, input)), ExemptStep(s, Served(idx, input), ex))
  {
    var ev, sock := Served(idx, input), s.polls[idx].fd;
    var t, ex' := Step(s, ev), ExemptStep(s, ev, ex);
    if RegisterCode(s.table, sock, sel, CanAppend(s, input)) == 0 {
      forall i | 0 <= i < |t.crates|
        ensures ex'[i] * t.crates[i].irqen == {}
        ensures Lines(t.table, t.crates[i].number) <= t.crates[i].irqen + ex'[i]
      {
        LinesOfAppend(s.table, Entry(sel, sock), s.crates[i].number);
        EmptyMask(sel.crate);
      }
    }
  }

  lemma ReleaseAccounts(s: State, idx: nat, sel: Selector, input: ClientInput, ex: Exemptions)
    requires Inv(s) && Accounted(s, ex) && |s.crates| < idx < |s.polls|
    requires input.received == Got(ReleaseIrq(sel))
    ensures Accounted(Step(s, Served(idx, input)), ExemptStep(s, Served(idx, input), ex))
  {
    var sock := s.polls[idx].fd;
    ReleaseKeepsTable(s.table, sock, sel);
    RecomputeAccounts(s.(table := Release(s.table, sock, sel)), ExemptStep(s, Served(idx, input), ex));
  }

  lemma HangUpAccounts(s: State, idx: nat, input: ClientInput, ex: Exemptions)
    requires Inv(s) && Accounted(s, ex) && |s.crates| < idx < |s.polls|
    requires input.received == Closed
    ensures Accounted(Step(s, Served(idx, input)), ExemptStep(s, Served(idx, input), ex))
  {
    var sock := s.polls[idx].fd;
    WithoutKeepsTable(s.table, sock);
    RecomputeAccounts(RemoveFd(s, idx).(table := Without(s.table, sock)), ExemptStep(s, Served(idx, input), ex));
  }

  lemma StepAccounts(s: State, ev: Event, ex: Exemptions)
    requires Inv(s) && Enabled(s, ev) && Accounted(s, ex)
    ensures Accounted(Step(s, ev), ExemptStep(s, ev, ex))
  {
    match ev
    case Serviced(idx, passes) => DaemonVme.SearchEffect(s, idx, s.crates[idx].irqen, passes);
    case Served(idx, input) =>
      match input.received {
        case Closed => HangUpAccounts(s, idx, input, ex);
        case Got(ReleaseIrq(sel)) => ReleaseAccounts(s, idx, sel, input, ex);
        case Got(RequestIrq(sel)) => RequestAccounts(s, idx, sel, input, ex);
        case _ =>
      }
    case _ =>
  }

  lemma {:induction false} RunAccounts(s: State, evs: seq<Event>, ex: Exemptions)
    requires Inv(s) && EnabledRun(s, evs) && Accounted(s, ex)
    ensures Accounted(Run(s, evs), Exempt(s, evs, ex))
    decreases |evs|
  {
    if |evs| > 0 {
      StepKeepsInv(s, evs[0]);
      StepAccounts(s, evs[0], ex);
      RunAccounts(Step(s, evs[0]), evs[1..], ExemptStep(s, evs[0], ex));
    }
  }

  /** A registered line of an open crate is enabled exactly when it is not exempt. */
  lemma RegisteredMeansEnabledOrExempt(s: State, evs: seq<Event>, i: nat, k: nat)
    requires Initial(s) && EnabledRun(s, evs)
    requires i < |Run(s, evs).crates| && k in Lines(Run(s, evs).table, Run(s, evs).crates[i].number)
    ensures Inv(s) && |Exempt(s, evs, seq(|s.crates|, _ => {}))| == |Run(s, evs).crates|
    ensures k in Run(s, evs).crates[i].irqen <==> k !in Exempt(s, evs, seq(|s.crates|, _ => {}))[i]
  {
    var none: Exemptions := seq(|s.crates|, _ => {});
    InitialInv(s);
    RunAccounts(s, evs, none);
    var t, ex := Run(s, evs), Exempt(s, evs, none);
    assert k in t.crates[i].irqen + ex[i];
    assert k !in ex[i] * t.crates[i].irqen;
  }

  /**
   * A request is meant to enable its lines on the crates it names. A crate ends up with exactly that
   * if and only if it is named, or had all those lines enabled before, or no crate is named at all.
   */
  lemma EnablesNamedCratesOnly(s: State, sel: Selector, i: nat)
    requires i < |s.crates|
    ensures var c := s.crates[i];
            EnableInterrupts(s, sel).crates[i].irqen == c.irqen + (if c.number in Crates(sel) then Irqs(sel) else {})
            <==> c.number in Crates(sel) || Irqs(sel) <= c.irqen || sel.crate == 0
  {
    EmptyMask(sel.crate);
  }

  /** Two open crates and nobody connected. */
  function TwoCrates(): State {
    var polls := [PollFd(3, false), PollFd(4, false), PollFd(5, false)];
    State(1, false, [Crate(0, {}), Crate(1, {})], polls, 3, [], 0, [], [], false)
  }

  function Asking(sel: Selector): ClientInput {
    ClientInput(Got(RequestIrq(sel)), true, false, SendError(ErrorNumbers.EPERM))
  }

  /** Line 3 of crate 0, any vector. */
  function LineOfFirst(): Selector {
    Selector(1, 8, ANYVECTOR, 0)
  }

  /** The state after a client has been accepted as 6 and has registered `LineOfFirst`. */
  function Registered(): State {
    TwoCrates().(
      crates := [Crate(0, {3}), Crate(1, {3})],
      polls := TwoCrates().polls + [PollFd(6, false)],
      room := 4,
      table := [Entry(LineOfFirst(), 6)],
      capacity := INCR,
      sent := [Reply(6, true)],
      read := [Reading(6, RequestIrq(LineOfFirst()), false, 0)])
  }

  lemma LineOfFirstIsLegal()
    ensures Crates(LineOfFirst()) == {0} && Irqs(LineOfFirst()) == {3} && Legal(LineOfFirst())
  {
    SingleBit(0);
    SingleBit(3);
    assert Bit(0) == 1 && Bit(3) == 8;
  }

  lemma RequestIsGranted()
    ensures var accept, request := Accepted(6, false), Served(3, Asking(LineOfFirst()));
            && Enabled(TwoCrates(), accept) && Enabled(Step(TwoCrates(), accept), request)
            && Step(Step(TwoCrates(), accept), request) == Registered()
  {
    LineOfFirstIsLegal();
    var s1 := Step(TwoCrates(), Accepted(6, false));
    var s2 := Step(s1, Served(3, Asking(LineOfFirst())));
    assert s1.polls[3].fd == 6;
    assert RegisterCode(s1.table, 6, LineOfFirst(), true) == 0;
    assert EnableOn(Crate(0, {}), LineOfFirst()) == Crate(0, {3});
    assert EnableOn(Crate(1, {}), LineOfFirst()) == Crate(1, {3});
    assert s2.crates == Registered().crates;
    assert s2.polls == Registered().polls;
  }

  /**
   * In a run of two steps from start-up, a client registers a line of one crate, and the line is
   * enabled on the other as well, where nobody asked for it.
   */
  lemma RequestReachesOtherCrate()
    ensures var s, evs := TwoCrates(), [Accepted(6, false), Served(3, Asking(LineOfFirst()))];
            && Initial(s) && EnabledRun(s, evs)
            && var t := Run(s, evs);
               |t.crates| == 2 && t.crates[1].irqen == {3} && Lines(t.table, t.crates[1].number) == {}
  {
    var s, evs := TwoCrates(), [Accepted(6, false), Served(3, Asking(LineOfFirst()))];
    LineOfFirstIsLegal();
    RequestIsGranted();
    assert evs[1..] == [evs[1]] && evs[1..][1..] == [];
    assert Run(s, evs) == Run(Step(s, evs[0]), evs[1..]) == Registered();
  }

  /** After every release and every hang-up each crate has exactly its registered lines enabled. */
  lemma ReleaseRestoresExactness(s: State, idx: nat, input: ClientInput, i: nat)
    requires Inv(s) && Enabled(s, Served(idx, input)) && i < |s.crates|
    requires input.received == Closed || (input.received.Got? && input.received.msg.ReleaseIrq?)
    ensures var t := Step(s, Served(idx, input));
            |t.crates| == |s.crates| && t.crates[i].irqen == Lines(t.table, t.crates[i].number)
  {
    var sock := s.polls[idx].fd;
    if input.received == Closed {
      WithoutKeepsTable(s.table, sock);
      RecomputeIsExact(RemoveFd(s, idx).(table := Without(s.table, sock)), i);
    } else {
      var sel := input.received.msg.selector;
      ReleaseKeepsTable(s.table, sock, sel);
      RecomputeIsExact(s.(table := Release(s.table, sock, sel)), i);
    }
  }
}
