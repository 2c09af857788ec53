/** What removing a slot reads: the move as the program writes it goes one slot beyond the live ones. */
module DaemonPolls {
  import Messages
  import ErrorNumbers
  import opened DaemonSpec
  import DaemonInvariants
  import DaemonRuns
  import DaemonVme

  predicate SlotAllocated(s: State, p: nat) {
    p < s.room
  }

  /** The move takes as many slots as there are from `idx` on, starting behind it; all are allocated. */
  ghost predicate MoveReadsAllocated(s: State, idx: nat) {
    forall p: nat | idx + 1 <= p < idx + 1 + (|s.polls| - idx) :: SlotAllocated(s, p)
  }

  /** It stays within the allocation exactly when more slots are allocated than in use. */
  lemma MoveNeedsSpareSlot(s: State, idx: nat)
    requires idx < |s.polls|
    ensures MoveReadsAllocated(s, idx) <==> |s.polls| < s.room
  {
    if MoveReadsAllocated(s, idx) { assert SlotAllocated(s, |s.polls|); }
  }

  /** Slots allocated beyond those in use, `n` at first: an append leaves none, a hang-up one more. */
  function Spare(evs: seq<Event>, n: int): int {
    if |evs| == 0 then n else Spare(evs[1..], SpareAfter(evs[0], n))
  }

  function SpareAfter(ev: Event, n: int): int {
    if ev.Accepted? then 0 else if HangsUp(ev) then n + 1 else n
  }

  function SpareSlots(s: State): int {
    s.room - |s.polls|
  }

  lemma StepSpare(s: State, ev: Event)
    requires DaemonInvariants.Inv(s) && Enabled(s, ev)
    ensures SpareSlots(Step(s, ev)) == SpareAfter(ev, SpareSlots(s))
  {
    match ev
    case Serviced(idx, passes) => DaemonVme.SearchEffect(s, idx, s.crates[idx].irqen, passes);
    case Served(idx, input) =>
      if !HangsUp(ev) { DaemonRuns.MessagesKeepFront(s, idx, input); }
    case _ =>
  }

  lemma {:induction false} RunSpare(s: State, evs: seq<Event>)
    requires DaemonInvariants.Inv(s) && EnabledRun(s, evs)
    ensures SpareSlots(Run(s, evs)) == Spare(evs, SpareSlots(s))
    decreases |evs|
  {
    if |evs| > 0 {
      StepSpare(s, evs[0]);
      DaemonInvariants.StepKeepsInv(s, evs[0]);
      RunSpare(Step(s, evs[0]), evs[1..]);
    }
  }

  ghost predicate NoAcceptFrom(evs: seq<Event>, i: int) {
    forall j | i <= j < |evs| && 0 <= j :: !evs[j].Accepted?
  }

  ghost predicate LastHangUp(evs: seq<Event>, i: nat) {
    i < |evs| && HangsUp(evs[i]) && NoAcceptFrom(evs, i + 1)
  }

  /** Some client has hung up since the last one was accepted. */
  ghost predicate HungUpSinceAccept(evs: seq<Event>) {
    exists i: nat :: LastHangUp(evs, i)
  }

  lemma {:induction false} SpareMeansHungUp(evs: seq<Event>, n: nat)
    ensures Spare(evs, n) >= 0
    ensures Spare(evs, n) > 0 <==> HungUpSinceAccept(evs) || (n > 0 && NoAcceptFrom(evs, 0))
    decreases |evs|
  {
    if |evs| > 0 {
      var rest := evs[1..];
      SpareMeansHungUp(rest, SpareAfter(evs[0], n));
      forall i: nat ensures NoAcceptFrom(evs, i + 1) <==> NoAcceptFrom(rest, i) {
        assert forall j | 0 <= j < |rest| :: rest[j] == evs[j + 1];
        assert forall j | 0 < j < |evs| :: evs[j] == rest[j - 1];
      }
      forall i: nat ensures LastHangUp(rest, i) <==> LastHangUp(evs, i + 1) {
        assert i < |rest| ==> rest[i] == evs[i + 1];
      }
      if HungUpSinceAccept(evs) {
        var i: nat :| LastHangUp(evs, i);
        if i > 0 { assert LastHangUp(rest, i - 1); } else { assert NoAcceptFrom(rest, 0); }
      }
      if HangsUp(evs[0]) && NoAcceptFrom(rest, 0) { assert LastHangUp(evs, 0); }
      if HungUpSinceAccept(rest) {
        var i: nat :| LastHangUp(rest, i);
        assert LastHangUp(evs, i + 1);
      }
      assert NoAcceptFrom(evs, 0) <==> !evs[0].Accepted? && NoAcceptFrom(rest, 0);
    }
  }

  /** In every reachable state the live slots are allocated, and whether the move stays inside follows from the run. */
  lemma MoveStaysInside(s: State, evs: seq<Event>, idx: nat)
    requires Initial(s) && EnabledRun(s, evs) && idx < |Run(s, evs).polls|
    ensures |Run(s, evs).polls| <= Run(s, evs).room
    ensures MoveReadsAllocated(Run(s, evs), idx) <==> HungUpSinceAccept(evs)
  {
    DaemonInvariants.InitialInv(s);
    RunSpare(s, evs);
    SpareMeansHungUp(evs, 0);
    MoveNeedsSpareSlot(Run(s, evs), idx);
  }

  function Closing(): ClientInput {
    ClientInput(Messages.Closed, true, false, Messages.SendError(ErrorNumbers.EPERM))
  }

  /** One client comes and goes: its removal reads a slot that is not allocated. */
  lemma FirstHangUpReadsBeyond()
    ensures var s, accept, close := DaemonRuns.TwoCrates(), Accepted(6, false), Served(3, Closing());
            && Initial(s) && EnabledRun(s, [accept, close])
            && !MoveReadsAllocated(Run(s, [accept]), 3)
  {
    var s, accept, close := DaemonRuns.TwoCrates(), Accepted(6, false), Served(3, Closing());
    var t := Step(s, accept);
    assert [accept, close][1..] == [close] && [close][1..] == [] && [accept][1..] == [];
    assert Run(s, [accept]) == Run(t, []) == t;
    MoveNeedsSpareSlot(t, 3);
  }
}
