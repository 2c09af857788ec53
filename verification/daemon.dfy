/** The daemon as the program runs it: global lists and registers updated in place. */
module Daemons {
  import opened Bits
  import opened Selectors
  import opened VectorTableSpec
  import opened VectorTables
  import opened Messages
  import opened PollLists
  import opened DaemonSpec
  import DaemonInvariants
  import DaemonRuns
  import DaemonWalk

  /** The crates that the enable registers describe. */
  function CratesOf(numbers: seq<CrateNumber>, registers: seq<u32>): (r: seq<Crate>)
    requires |numbers| == |registers|
    ensures |r| == |numbers|
    ensures forall i | 0 <= i < |r| :: r[i] == Crate(numbers[i], BitSet(registers[i]))
  {
    seq(|numbers|, i requires 0 <= i < |numbers| => Crate(numbers[i], BitSet(registers[i])))
  }

  /** One crate at start-up: whether it opens, its interrupt descriptor, its event flags and register. */
  datatype Opening = Opening(opens: bool, fd: int, flags: bool, irqen: u32)

  /** The crate's handle opens, and so does its interrupt endpoint. */
  predicate Usable(o: Opening) {
    o.opens && o.fd >= 0
  }

  /** The crates among the first `n` that can be used, in order. */
  ghost predicate ListsUsable(openings: seq<Opening>, n: nat, numbers: seq<CrateNumber>)
    requires n <= |openings| == 16
  {
    && (forall c: CrateNumber :: c in numbers <==> c < n && openings[c].opens && openings[c].fd >= 0)
    && (forall i, j | 0 <= i < j < |numbers| :: numbers[i] < numbers[j])
  }

  /** Slot `i` of the poll list is that of crate `numbers[i]`. */
  ghost predicate Endpoints(openings: seq<Opening>, numbers: seq<CrateNumber>, polls: seq<PollFd>)
    requires |openings| == 16
  {
    && |numbers| <= |polls|
    && forall i | 0 <= i < |numbers| :: polls[i] == PollFd(openings[numbers[i]].fd, openings[numbers[i]].flags)
  }

  /** The system hands out each descriptor once, and every enable register reads zero. */
  ghost predicate CleanStart(openings: seq<Opening>, server: int) {
    && server >= 0
    && (forall c | 0 <= c < |openings| :: openings[c].irqen == 0 && (Usable(openings[c]) ==> openings[c].fd != server))
    && (forall c, d | 0 <= c < d < |openings| && Usable(openings[c]) && Usable(openings[d]) ::
          openings[c].fd != openings[d].fd)
  }

  function Registers(openings: seq<Opening>, numbers: seq<CrateNumber>): seq<u32>
    requires |openings| == 16
  {
    seq(|numbers|, i requires 0 <= i < |numbers| => openings[numbers[i]].irqen)
  }

  lemma CleanStartIsInitial(openings: seq<Opening>, server: int, flags: bool, numbers: seq<CrateNumber>, s: State)
    requires |openings| == 16 && CleanStart(openings, server)
    requires ListsUsable(openings, 16, numbers) && Endpoints(openings, numbers, s.polls)
    requires |numbers| == |s.crates| && s.polls[|numbers|..] == [PollFd(server, flags)] && s.room == |s.polls|
    requires s.crates == CratesOf(numbers, Registers(openings, numbers))
    requires s.table == [] && s.capacity == 0 && s.sent == [] && s.read == [] && !s.exited
    ensures Initial(s)
  {
    EmptyMask(0);
    assert s.polls[|numbers|] == s.polls[|numbers|..][0];
    forall i | 0 <= i < |numbers|
      ensures Usable(openings[numbers[i]])
    {
      assert numbers[i] in numbers;
    }
  }

  /** Open the crates in turn, skipping those that fail. */
  method ConfigureVmeEndpoints(openings: seq<Opening>)
    returns (numbers: seq<CrateNumber>, registers: seq<u32>, polls: PollList)
    requires |openings| == 16
    ensures fresh(polls) && fresh(polls.slots) && polls.Valid()
    ensures |numbers| == |polls.polls| == polls.slots.Length
    ensures ListsUsable(openings, 16, numbers) && Endpoints(openings, numbers, polls.polls)
    ensures registers == Registers(openings, numbers)
  {
    numbers, registers := [], [];
    polls := new PollList();
    var crate := 0;
    while crate < 16
      invariant 0 <= crate <= 16 && polls.Valid() && fresh(polls) && fresh(polls.slots)
      invariant |numbers| == |polls.polls| == polls.slots.Length
      invariant ListsUsable(openings, crate, numbers) && Endpoints(openings, numbers, polls.polls)
      invariant registers == Registers(openings, numbers)
    {
      if openings[crate].opens && openings[crate].fd >= 0 {
        polls.AppendFd(openings[crate].fd, openings[crate].flags);
        numbers, registers := numbers + [crate], registers + [openings[crate].irqen];
      }
      crate := crate + 1;
    }
  }

  class Daemon {
    const pid: int
    const fakeOk: bool
    const numbers: seq<CrateNumber>
    const irqen: array<u32>
    const table: VectorTable
    const list: PollList
    var exited: bool
    ghost var sent: seq<Sent>
    ghost var read: seq<Reading>

    ghost predicate Valid()
      reads this, table, table.slots, list, list.slots
    {
      table.Valid() && list.Valid() && irqen.Length == |numbers|
    }

    ghost function S(): State
      requires Valid()
      reads this, table, table.slots, list, list.slots, irqen
    {
      State(pid, fakeOk, CratesOf(numbers, irqen[..]), list.polls, list.slots.Length,
            table.entries, table.slots.Length, sent, read, exited)
    }

    /** Start-up: the crates, then the server socket, without which the daemon gives up. */
    constructor (pid: int, fakeOk: bool, openings: seq<Opening>, server: int, flags: bool)
      requires |openings| == 16
      ensures Valid() && ListsUsable(openings, 16, numbers) && Endpoints(openings, numbers, list.polls)
      ensures exited <==> server < 0
      ensures server >= 0 ==> list.polls[|numbers|..] == [PollFd(server, flags)]
      ensures irqen[..] == Registers(openings, numbers)
      ensures CleanStart(openings, server) ==> Initial(S())
    {
      var found, registers, polls := ConfigureVmeEndpoints(openings);
      if server >= 0 {
        polls.AppendFd(server, flags);
      }
      this.pid, this.fakeOk, numbers, list := pid, fakeOk, found, polls;
      irqen := new u32[|registers|](i requires 0 <= i < |registers| => registers[i]);
      table := new VectorTable();
      exited, sent, read := server < 0, [], [];
      new;
      assert irqen[..] == registers;
      if CleanStart(openings, server) { CleanStartIsInitial(openings, server, flags, numbers, S()); }
    }

    method AppendFd(fd: int, flags: bool)
      requires Valid()
      modifies list, this`exited
      ensures Valid() && (list.slots == old(list.slots) || fresh(list.slots))
      ensures S() == DaemonSpec.AppendFd(old(S()), fd, flags)
      ensures exited <==> old(exited) || |numbers| >= old(list.len)
      ensures !exited ==> list.slots[..list.len] == old(list.slots[..list.len]) + [PollFd(fd, flags)]
                          && list.slots.Length == list.len
    {
      if |numbers| >= list.len {
        exited := true;
        return;
      }
      list.AppendFd(fd, flags);
    }

    method RemoveFd(idx: nat)
      requires Valid()
      modifies list`len, list`polls, list.slots, this`exited
      ensures Valid() && S() == DaemonSpec.RemoveFd(old(S()), idx)
      ensures exited <==> old(exited) || !(|numbers| < idx < old(list.len))
      ensures |numbers| < idx < old(list.len) ==>
                list.slots[..list.len] == old(list.slots[..idx]) + old(list.slots[idx + 1..list.len])
      ensures |numbers| < idx < old(list.len) && DaemonInvariants.GoodPolls(old(S())) ==>
                forall fd :: DaemonInvariants.IsClient(S(), fd) <==>
                  DaemonInvariants.IsClient(old(S()), fd) && fd != old(list.polls[idx].fd)
    {
      if idx <= |numbers| || idx >= list.len {
        exited := true;
        return;
      }
      if DaemonInvariants.GoodPolls(S()) { DaemonInvariants.RemoveFdRemovesOne(S(), idx); }
      list.Collapse(idx);
    }

    method NotifyIrq(sel: Selector, x: Exchange) returns (err: int)
      requires Valid()
      modifies this`sent, this`read
      ensures Valid() && (S(), err) == DaemonSpec.NotifyIrq(old(S()), sel, x)
    {
      var sock, found, errno := table.FindInterrupt(sel);
      if sock == 0 {
        return -errno;
      }
      sent := sent + [Signal(sock, found)];
      if x.Delivered? && x.reply.Got? {
        read := read + [Reading(sock, x.reply.msg, true, |sent|)];
      }
      err := HandshakeCode(x);
    }

    method EnableInterrupts(sel: Selector)
      requires Valid()
      modifies irqen
      ensures Valid() && S() == DaemonSpec.EnableInterrupts(old(S()), sel)
    {
      ghost var was, before := irqen[..], S();
      var idx := 0;
      while idx < |numbers|
        invariant 0 <= idx <= |numbers|
        invariant forall i | 0 <= i < idx ::
                    BitSet(irqen[i]) == BitSet(was[i]) + if sel.crate != 0 then Irqs(sel) else {}
        invariant forall i | idx <= i < |numbers| :: irqen[i] == was[i]
      {
        if sel.crate != 0 && Bit(numbers[idx]) != 0 {
          MaskOperators(irqen[idx], sel.irq);
          irqen[idx] := Or(irqen[idx], sel.irq);
        }
        idx := idx + 1;
      }
      ghost var after := DaemonSpec.EnableInterrupts(before, sel);
      forall i | 0 <= i < |numbers|
        ensures S().crates[i] == after.crates[i]
      {
        assert S().crates[i].irqen == BitSet(irqen[..][i]);
      }
      assert S().crates == after.crates;
    }

    method DisableUnusedInterrupts()
      requires Valid()
      modifies irqen
      ensures Valid() && S() == DaemonSpec.DisableUnusedInterrupts(old(S()))
    {
      ghost var after := DaemonSpec.DisableUnusedInterrupts(S());
      var irqs := new u8[16](_ => 0);
      table.ListRegisteredInterrupts(irqs);
      var idx := 0;
      while idx < |numbers|
        invariant 0 <= idx <= |numbers|
        invariant forall c | 0 <= c < 16 :: BitSet(irqs[c]) == Lines(table.entries, c) * LOW8
        invariant forall i | 0 <= i < idx :: BitSet(irqen[i]) == Lines(table.entries, numbers[i]) * LOW8
      {
        irqen[idx] := irqs[numbers[idx]];
        idx := idx + 1;
      }
      forall i | 0 <= i < |numbers|
        ensures S().crates[i] == after.crates[i]
      {
        assert S().crates[i].irqen == BitSet(irqen[..][i]);
      }
      assert S().crates == after.crates;
    }

    method BuildStatusReport() returns (crates: u32, clients: int, requests: nat)
      requires Valid()
      ensures Status(pid, BitSet(crates), clients, requests) == StatusReport(S())
    {
      crates := 0;
      EmptyMask(0);
      var idx := 0;
      while idx < |numbers|
        invariant 0 <= idx <= |numbers|
        invariant BitSet(crates) == set i | 0 <= i < idx :: numbers[i] as nat
      {
        SingleBit(numbers[idx]);
        MaskOperators(crates, Bit(numbers[idx]));
        crates := Or(crates, Bit(numbers[idx]));
        idx := idx + 1;
      }
      assert forall i | 0 <= i < |numbers| :: S().crates[i].number == numbers[i];
      clients := list.len - |numbers| - 1;
      requests := table.CountRegisteredInterrupts();
    }

    /** Try the lines from 7 down to 1; zero when none of them is set. */
    method HighestAsserted(irqstatus: u32) returns (irq: nat)
      ensures irq == HighestLine(BitSet(irqstatus))
    {
      irq := 7;
      while irq >= 1 && And(irqstatus, Bit(irq)) == 0
        invariant irq <= 7
        invariant forall k: nat | irq < k <= 7 :: k !in BitSet(irqstatus)
      {
        TestBit(irqstatus, irq);
        irq := irq - 1;
      }
      if irq != 0 { TestBit(irqstatus, irq); }
    }

    /** One pass of the search, from the reading of the status to the next `goto`. */
    method SearchOnce(idx: nat, cached: u32, p: Pass) returns (outcome: VmeOutcome, lines: u32)
      requires Valid() && idx < |numbers|
      modifies this`sent, this`read, this`exited, irqen
      ensures Valid()
      ensures match VmePass(old(S()), idx, BitSet(cached), p)
              case Quiet => outcome == Returned && S() == old(S())
              case Illegal => outcome == Fatal && S() == old(S()).(exited := true)
              case Went(_, s1, lines1) => outcome == Busy && S() == s1 && BitSet(lines) == lines1
    {
      lines := cached;
      MaskOperators(p.status, lines);
      var irqstatus: u32 := And(p.status, lines);
      EmptyMask(irqstatus);
      if irqstatus == 0 {
        return Returned, lines;
      }
      var irq := HighestAsserted(irqstatus);
      if irq == 0 {
        exited := true;
        return Fatal, lines;
      }
      var err := NotifyIrq(Concrete(numbers[idx], irq, p.vector), p.exchange);
      if err != 0 {
        TestBit(p.after, irq);
        if And(p.after, Bit(irq)) != 0 {
          ghost var before := S();
          SingleBit(irq);
          MaskOperators(lines, Bit(irq));
          lines := AndNot(lines, Bit(irq));
          irqen[idx] := lines;
          assert S().crates == before.crates[idx := before.crates[idx].(irqen := BitSet(lines))];
        }
      }
      outcome := Busy;
    }

    /**
     * Dispatch the interrupts of one crate until a reading shows none. The search goes on for as
     * long as the environment keeps supplying passes, so it may also be left unfinished.
     */
    method ProcessVme(idx: nat, passes: seq<Pass>) returns (outcome: VmeOutcome)
      requires Valid() && idx < |numbers|
      modifies this`sent, this`read, this`exited, irqen
      ensures Valid()
      ensures S() == DaemonSpec.ProcessVme(old(S()), idx, passes).state
      ensures outcome == DaemonSpec.ProcessVme(old(S()), idx, passes).outcome
    {
      ghost var whole := DaemonSpec.ProcessVme(S(), idx, passes);
      var lines := irqen[idx];
      assert S().crates[idx].irqen == BitSet(irqen[..][idx]);
      outcome := Busy;
      var i: nat := 0;
      while i < |passes| && outcome == Busy
        invariant i <= |passes| && Valid()
        invariant outcome == Busy ==> SameEnd(VmeLoop(S(), idx, BitSet(lines), passes[i..]), whole)
        invariant outcome != Busy ==> S() == whole.state && outcome == whole.outcome
      {
        assert passes[i..][0] == passes[i] && passes[i..][1..] == passes[i + 1..];
        outcome, lines := SearchOnce(idx, lines, passes[i]);
        i := i + 1;
      }
    }

    /** A negative descriptor is a failed accept. */
    method ProcessNewClient(client: int, flags: bool)
      requires Valid()
      modifies list, this`exited
      ensures Valid() && (list.slots == old(list.slots) || fresh(list.slots))
      ensures S() == if client < 0 then old(S()) else DaemonSpec.AppendFd(old(S()), client, flags)
      ensures DaemonInvariants.Inv(old(S())) && Enabled(old(S()), Accepted(client, flags)) ==>
                && DaemonInvariants.Inv(S()) && ClientCount(S()) == ClientCount(old(S())) + 1
                && (forall fd :: DaemonInvariants.IsClient(S(), fd) <==>
                      DaemonInvariants.IsClient(old(S()), fd) || fd == client)
    {
      if DaemonInvariants.Inv(S()) && Enabled(S(), Accepted(client, flags)) {
        DaemonInvariants.AcceptKeepsInv(S(), client, flags);
        DaemonInvariants.AppendFdAddsOne(S(), client, flags);
      }
      if client >= 0 {
        AppendFd(client, flags);
      }
    }

    method HangUp(idx: nat, sock: int)
      requires Valid()
      modifies list`len, list`polls, list.slots, this`exited, irqen, table`entries, table.slots
      ensures Valid() && S() == DaemonSpec.HangUp(old(S()), idx, sock)
    {
      RemoveFd(idx);
      if exited { return; }
      table.ReleaseAllInterrupts(sock);
      DisableUnusedInterrupts();
    }

    method HandleRequest(sock: int, sel: Selector, input: ClientInput)
      requires Valid()
      modifies this`sent, irqen, table, table.slots
      ensures Valid() && (table.slots == old(table.slots) || fresh(table.slots))
      ensures S() == DaemonSpec.HandleRequest(old(S()), sock, sel, input)
    {
      var e := table.RegisterInterrupt(sock, sel, input.memory);
      if e < 0 {
        sent := sent + [Reply(sock, false)];
      } else {
        sent := sent + [Reply(sock, true)];
        if !input.replyFails {
          EnableInterrupts(sel);
        }
      }
    }

    method HandleRelease(sock: int, sel: Selector)
      requires Valid()
      modifies this`sent, irqen, table`entries, table.slots
      ensures Valid() && S() == DaemonSpec.HandleRelease(old(S()), sock, sel)
    {
      var e := table.ReleaseInterrupt(sock, sel);
      sent := sent + [Reply(sock, e == 0)];
      DisableUnusedInterrupts();
    }

    method HandleFake(sock: int, sel: Selector, input: ClientInput)
      requires Valid()
      modifies this`sent, this`read
      ensures Valid() && S() == DaemonSpec.HandleFake(old(S()), sock, sel, input)
    {
      if fakeOk {
        sent := sent + [Reply(sock, true)];
        if !input.replyFails {
          var _ := NotifyIrq(sel, input.exchange);
        }
      } else {
        sent := sent + [Reply(sock, false)];
      }
    }

    method ProcessClient(idx: nat, input: ClientInput)
      requires Valid() && idx < list.len
      modifies this, irqen, table, table.slots, list`len, list`polls, list.slots
      ensures Valid() && (table.slots == old(table.slots) || fresh(table.slots))
      ensures S() == ServeClient(old(S()), idx, input)
    {
      var sock := list.slots[idx].fd;
      match input.received
      case ReadError(_) =>
      case Closed => HangUp(idx, sock);
      case Got(msg) =>
        read := read + [Reading(sock, msg, false, |sent|)];
        match msg {
          case RequestIrq(sel) => HandleRequest(sock, sel, input);
          case ReleaseIrq(sel) => HandleRelease(sock, sel);
          case IrqSignal(sel) => HandleFake(sock, sel, input);
          case ServerStatus =>
            var crates, clients, requests := BuildStatusReport();
            sent := sent + [Report(sock, Status(pid, BitSet(crates), clients, requests))];
          case _ =>
        }
    }

    /** Call the handler of the section that slot `idx` lies in. */
    method DispatchSlot(idx: nat, x: SlotInput)
      requires Valid() && idx < list.len && Enabled(S(), EventFor(S(), idx, x))
      modifies this, irqen, table, table.slots, list, list.slots
      ensures Valid() && (table.slots == old(table.slots) || fresh(table.slots))
      ensures list.slots == old(list.slots) || fresh(list.slots)
      ensures S() == Step(old(S()), EventFor(old(S()), idx, x))
      ensures idx < |numbers| ==> S() == DaemonSpec.ProcessVme(old(S()), idx, x.passes).state
      ensures idx == |numbers| && x.client < 0 ==> S() == old(S())
      ensures idx == |numbers| && x.client >= 0 ==>
                S() == old(S()).(polls := old(list.polls) + [PollFd(x.client, x.flags)], room := old(list.len) + 1)
      ensures idx > |numbers| ==> S() == ServeClient(old(S()), idx, x.input)
    {
      if idx < |numbers| {
        var _ := ProcessVme(idx, x.passes);
      } else if idx == |numbers| {
        ProcessNewClient(x.client, x.flags);
      } else {
        ProcessClient(idx, x.input);
      }
    }

    /** The walk over the poll list; `end` is the state in which its events end. */
    method WalkPollList(nevents: nat, env: nat -> SlotInput, ghost end: State)
      requires Valid() && DaemonRuns.WalkEndsIn(S(), 0, nevents, env, 0, end)
      modifies this, irqen, table, table.slots, list, list.slots
      ensures Valid() && S() == end
    {
      var idx: nat, left, j: nat := 0, nevents, 0;
      while idx < list.len && left != 0 && !exited
        invariant Valid() && (table.slots == old(table.slots) || fresh(table.slots))
        invariant list.slots == old(list.slots) || fresh(list.slots)
        invariant DaemonRuns.WalkEndsIn(S(), idx, left, env, j, end)
        decreases left, list.len - idx
      {
        DaemonRuns.WalkOn(S(), idx, left, env, j, end);
        if list.slots[idx].ready {
          DispatchSlot(idx, env(j));
          left := left - 1;
          j := j + 1;
        }
        idx := idx + 1;
      }
    }

    /**
     * One walk over the poll list. Whatever slots come and go while it runs, it calls for each ready
     * slot it meets the handler of the section that the slot lies in at the time.
     */
    method DispatchPass(nevents: nat, env: nat -> SlotInput)
      requires Valid() && DaemonInvariants.Inv(S()) && DaemonRuns.EnvironmentAllowsPass(S(), 0, nevents, env, 0)
      modifies this, irqen, table, table.slots, list, list.slots
      ensures Valid() && DaemonInvariants.Inv(S()) && DaemonRuns.SameFront(old(S()), S())
      ensures EnabledRun(old(S()), PassEvents(old(S()), 0, nevents, env, 0))
      ensures S() == Run(old(S()), PassEvents(old(S()), 0, nevents, env, 0))
      ensures DaemonWalk.WalksTo(old(S()), nevents, env, S())
    {
      DaemonWalk.PassWalks(S(), nevents, env);
      WalkPollList(nevents, env, Run(S(), PassEvents(S(), 0, nevents, env, 0)));
    }
  }

  /** Two searches that end alike. */
  ghost predicate SameEnd(a: VmeResult, b: VmeResult) {
    a.state == b.state && a.outcome == b.outcome
  }
}
