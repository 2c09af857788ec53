/** The interrupt dispatch daemon as a state machine over accepts, client messages and interrupts. */
module DaemonSpec {
  import opened Bits
  import opened Selectors
  import opened VectorTableSpec
  import opened Messages
  import opened PollLists
  import ErrorNumbers

  type CrateNumber = c: nat | c < 16

  /** An open crate and the lines that its enable register holds. */
  datatype Crate = Crate(number: CrateNumber, irqen: set<nat>)

  datatype Status = Status(pid: int, crates: set<nat>, clients: int, irqRequests: nat)

  /** An attempt to send a message. */
  datatype Sent =
    | Reply(sock: int, ack: bool)
    | Signal(sock: int, sel: Selector)
    | Report(sock: int, status: Status)

  /**
   * A message read, when `at` messages had been sent. `asReply` is whether it was read while a reply
   * to a signal was awaited, and not by the main loop.
   */
  datatype Reading = Reading(sock: int, msg: Message, asReply: bool, at: nat)

  /**
   * The poll list holds the crates, then the server socket, then the clients; `room` is how many
   * slots are allocated for it. `capacity` is the allocated size of the vector table. `sent` and
   * `read` are the messages so far. `exited` is set when the daemon gives up with a fatal error.
   */
  datatype State = State(
    pid: int,
    fakeOk: bool,
    crates: seq<Crate>,
    polls: seq<PollFd>,
    room: nat,
    table: seq<Entry>,
    capacity: nat,
    sent: seq<Sent>,
    read: seq<Reading>,
    exited: bool)

  // ---------------------------------------------------------------- What the environment decides

  /** Outcomes met while one client message is handled. */
  datatype ClientInput = ClientInput(received: Received, memory: bool, replyFails: bool, exchange: Exchange)

  /** Readings and reply during one pass of the interrupt search. */
  datatype Pass = Pass(status: u32, vector: u32, exchange: Exchange, after: u32)

  datatype Event =
    | Polled(ready: seq<bool>)
    | AcceptFailed
    | Accepted(fd: int, flags: bool)
    | Served(idx: nat, input: ClientInput)
    | Serviced(idx: nat, passes: seq<Pass>)

  predicate HangsUp(ev: Event) {
    ev.Served? && ev.input.received == Closed
  }

  // ---------------------------------------------------------------- Shared operations

  function ClientCount(s: State): int {
    |s.polls| - |s.crates| - 1
  }

  function Send(s: State, m: Sent): State {
    s.(sent := s.sent + [m])
  }

  function Note(s: State, sock: int, msg: Message, asReply: bool): State {
    s.(read := s.read + [Reading(sock, msg, asReply, |s.sent|)])
  }

  function RemoveFd(s: State, idx: nat): State {
    if idx <= |s.crates| || idx >= |s.polls| then s.(exited := true)
    else s.(polls := s.polls[..idx] + s.polls[idx + 1..])
  }

  function AppendFd(s: State, fd: int, ready: bool): State {
    if |s.crates| >= |s.polls| then s.(exited := true)
    else s.(polls := s.polls + [PollFd(fd, ready)], room := |s.polls| + 1)
  }

  /** A request with any crate bit enables its lines on every open crate. */
  function EnableOn(c: Crate, sel: Selector): Crate {
    if sel.crate != 0 then c.(irqen := c.irqen + Irqs(sel)) else c
  }

  function EnableInterrupts(s: State, sel: Selector): State {
    s.(crates := seq(|s.crates|, i requires 0 <= i < |s.crates| => EnableOn(s.crates[i], sel)))
  }

  function DisableUnusedInterrupts(s: State): State {
    s.(crates := seq(|s.crates|, i requires 0 <= i < |s.crates| =>
         s.crates[i].(irqen := Lines(s.table, s.crates[i].number) * LOW8)))
  }

  function StatusReport(s: State): Status {
    Status(s.pid, set i | 0 <= i < |s.crates| :: s.crates[i].number, ClientCount(s), |s.table|)
  }

  /** Take whatever message comes in as the reply to a signal. */
  function AwaitReply(s: State, sock: int, x: Exchange): State {
    match x
    case Delivered(Got(m)) => Note(s, sock, m, true)
    case _ => s
  }

  function NotifyCode(t: seq<Entry>, sel: Selector, x: Exchange): int {
    if Answer(t, sel).None? then -ErrorNumbers.EINVAL else HandshakeCode(x)
  }

  /** Tell the owner of the answering entry, if there is one; the result is zero or an error code. */
  function NotifyIrq(s: State, sel: Selector, x: Exchange): (State, int) {
    match Answer(s.table, sel)
    case None => (s, NotifyCode(s.table, sel, x))
    case Some(e) =>
      var s1 := Send(s, Signal(e.data, sel.(payload := e.selector.payload)));
      (AwaitReply(s1, e.data, x), NotifyCode(s.table, sel, x))
  }

  // ---------------------------------------------------------------- Client messages

  function HangUp(s: State, idx: nat, sock: int): State {
    var s1 := RemoveFd(s, idx);
    if s1.exited then s1 else DisableUnusedInterrupts(s1.(table := Without(s1.table, sock)))
  }

  /** A slot of the table is free, or more of them can be allocated. */
  predicate CanAppend(s: State, input: ClientInput) {
    |s.table| < s.capacity || input.memory
  }

  function RegisterIn(s: State, sock: int, sel: Selector, input: ClientInput): State {
    s.(table := Register(s.table, sock, sel, CanAppend(s, input)),
       capacity := if |s.table| < s.capacity then s.capacity else s.capacity + INCR)
  }

  function HandleRequest(s: State, sock: int, sel: Selector, input: ClientInput): State {
    if RegisterCode(s.table, sock, sel, CanAppend(s, input)) < 0 then
      Send(s, Reply(sock, false))
    else
      var s1 := Send(RegisterIn(s, sock, sel, input), Reply(sock, true));
      if input.replyFails then s1 else EnableInterrupts(s1, sel)
  }

  function HandleRelease(s: State, sock: int, sel: Selector): State {
    var ok := ReleaseCode(s.table, sock, sel) == 0;
    DisableUnusedInterrupts(Send(s.(table := Release(s.table, sock, sel)), Reply(sock, ok)))
  }

  function HandleFake(s: State, sock: int, sel: Selector, input: ClientInput): State {
    if !s.fakeOk then Send(s, Reply(sock, false))
    else
      var s1 := Send(s, Reply(sock, true));
      if input.replyFails then s1 else NotifyIrq(s1, sel, input.exchange).0
  }

  function HandleMessage(s: State, sock: int, msg: Message, input: ClientInput): State {
    match msg
    case RequestIrq(sel) => HandleRequest(s, sock, sel, input)
    case ReleaseIrq(sel) => HandleRelease(s, sock, sel)
    case IrqSignal(sel) => HandleFake(s, sock, sel, input)
    case ServerStatus => Send(s, Report(sock, StatusReport(s)))
    case _ => s
  }

  function ServeClient(s: State, idx: nat, input: ClientInput): State
    requires idx < |s.polls|
  {
    var sock := s.polls[idx].fd;
    match input.received
    case ReadError(_) => s
    case Closed => HangUp(s, idx, sock)
    case Got(msg) => HandleMessage(Note(s, sock, msg, false), sock, msg, input)
  }

  // ---------------------------------------------------------------- Interrupts

  /** The highest of the lines 7 down to 1, or 0 when there is none. */
  function HighestLine(lines: set<nat>): (irq: nat)
    ensures irq <= 7
    ensures irq != 0 ==> irq in lines
    ensures forall k | irq < k <= 7 :: k !in lines
  {
    if 7 in lines then 7 else if 6 in lines then 6 else if 5 in lines then 5 else if 4 in lines then 4
    else if 3 in lines then 3 else if 2 in lines then 2 else if 1 in lines then 1 else 0
  }

  /** The selector of an interrupt that has happened: one crate, one line, the vector fetched. */
  function Concrete(c: CrateNumber, irq: nat, vector: u32): Selector
    requires irq < 8
  {
    Widths();
    BitFits(c, 16);
    BitFits(irq, 16);
    Selector(Bit(c), Bit(irq), vector, 0)
  }

  datatype PassKind = Acked | Dropped | Masked

  /** One pass of the search: nothing left, an impossible reading, or a line dealt with. */
  datatype PassResult = Quiet | Illegal | Went(kind: PassKind, state: State, lines: set<nat>)

  /** `lines` is the cached copy of the enable register. */
  function VmePass(s: State, idx: nat, lines: set<nat>, p: Pass): PassResult
    requires idx < |s.crates|
  {
    var asserted := BitSet(p.status) * lines;
    if asserted == {} then Quiet
    else
      var irq := HighestLine(asserted);
      if irq == 0 then Illegal
      else
        var (s1, err) := NotifyIrq(s, Concrete(s.crates[idx].number, irq, p.vector), p.exchange);
        if err == 0 then Went(Acked, s1, lines)
        else if irq !in BitSet(p.after) then Went(Dropped, s1, lines)
        else
          Went(Masked, s1.(crates := s1.crates[idx := s1.crates[idx].(irqen := lines - {irq})]), lines - {irq})
  }

  datatype VmeOutcome = Returned | Fatal | Busy

  /** How the search went: `kinds` has one element for each pass that dealt with a line. */
  datatype VmeResult = VmeResult(state: State, lines: set<nat>, outcome: VmeOutcome, kinds: seq<PassKind>)

  function VmeLoop(s: State, idx: nat, lines: set<nat>, passes: seq<Pass>): (r: VmeResult)
    requires idx < |s.crates|
    decreases |passes|
  {
    if |passes| == 0 then VmeResult(s, lines, Busy, [])
    else
      match VmePass(s, idx, lines, passes[0])
      case Quiet => VmeResult(s, lines, Returned, [])
      case Illegal => VmeResult(s.(exited := true), lines, Fatal, [])
      case Went(kind, s1, lines1) =>
        var r := VmeLoop(s1, idx, lines1, passes[1..]);
        r.(kinds := [kind] + r.kinds)
  }

  function ProcessVme(s: State, idx: nat, passes: seq<Pass>): VmeResult
    requires idx < |s.crates|
  {
    VmeLoop(s, idx, s.crates[idx].irqen, passes)
  }

  // ---------------------------------------------------------------- Steps and runs

  function SetReady(polls: seq<PollFd>, ready: seq<bool>): seq<PollFd>
    requires |ready| == |polls|
  {
    seq(|polls|, i requires 0 <= i < |polls| => polls[i].(ready := ready[i]))
  }

  /** What can happen: sections as the main loop picks them, a fresh descriptor, a search that ends. */
  predicate Enabled(s: State, ev: Event) {
    match ev
    case Polled(ready) => |ready| == |s.polls|
    case AcceptFailed => true
    case Accepted(fd, _) => fd > 0 && forall i | 0 <= i < |s.polls| :: s.polls[i].fd != fd
    case Served(idx, _) => |s.crates| < idx < |s.polls|
    case Serviced(idx, passes) => idx < |s.crates| && ProcessVme(s, idx, passes).outcome != Busy
  }

  function Step(s: State, ev: Event): State
    requires Enabled(s, ev)
  {
    match ev
    case Polled(ready) => s.(polls := SetReady(s.polls, ready))
    case AcceptFailed => s
    case Accepted(fd, ready) => AppendFd(s, fd, ready)
    case Served(idx, input) => ServeClient(s, idx, input)
    case Serviced(idx, passes) => ProcessVme(s, idx, passes).state
  }

  predicate EnabledRun(s: State, evs: seq<Event>)
    decreases |evs|
  {
    |evs| == 0 || (Enabled(s, evs[0]) && EnabledRun(Step(s, evs[0]), evs[1..]))
  }

  function Run(s: State, evs: seq<Event>): State
    requires EnabledRun(s, evs)
    decreases |evs|
  {
    if |evs| == 0 then s else Run(Step(s, evs[0]), evs[1..])
  }

  // ---------------------------------------------------------------- The dispatch pass

  /** What the environment offers to whichever handler is called; a negative client is a failed accept. */
  datatype SlotInput = SlotInput(client: int, flags: bool, input: ClientInput, passes: seq<Pass>)

  /** The event that handling slot `idx` amounts to, by the section the slot lies in. */
  function EventFor(s: State, idx: nat, x: SlotInput): Event {
    if idx < |s.crates| then Serviced(idx, x.passes)
    else if idx == |s.crates| then (if x.client < 0 then AcceptFailed else Accepted(x.client, x.flags))
    else Served(idx, x.input)
  }

  /**
   * The events of one walk over the poll list, which handlers may grow or shrink meanwhile.
   * `nevents` is how many ready slots are still expected and `env(j)` what the j-th handler meets.
   */
  function PassEvents(s: State, idx: nat, nevents: nat, env: nat -> SlotInput, j: nat): seq<Event>
    decreases nevents, |s.polls| - idx
  {
    if idx >= |s.polls| || nevents == 0 || s.exited then []
    else if !s.polls[idx].ready then PassEvents(s, idx + 1, nevents, env, j)
    else
      var ev := EventFor(s, idx, env(j));
      [ev] + if Enabled(s, ev) then PassEvents(Step(s, ev), idx + 1, nevents - 1, env, j + 1) else []
  }

  /** The daemon after start-up: the crates and the server are polled, nothing is enabled. */
  ghost predicate Initial(s: State) {
    && |s.polls| == |s.crates| + 1 == s.room
    && (forall i, j | 0 <= i < j < |s.polls| :: s.polls[i].fd != s.polls[j].fd)
    && (forall i | 0 <= i < |s.crates| :: s.crates[i].irqen == {})
    && s.table == [] && s.capacity == 0 && s.sent == [] && s.read == [] && !s.exited
  }
}
