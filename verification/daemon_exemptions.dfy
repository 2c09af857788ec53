/** Why a registered line is off: the event in the run that turned it off and that nothing has undone. */
module DaemonExemptions {
  import opened Selectors
  import opened VectorTableSpec
  import opened DaemonSpec
  import opened DaemonInvariants
  import opened DaemonRuns
  import DaemonDispatch
  import DaemonVme

  /** The state in which event `m` of a run happens. */
  function StateAt(s: State, evs: seq<Event>, m: nat): (t: State)
    requires Inv(s) && EnabledRun(s, evs) && m <= |evs|
    ensures Inv(t) && |t.crates| == |s.crates|
    ensures m < |evs| ==> Enabled(t, evs[m])
    decreases m
  {
    if m == 0 then s
    else
      StepKeepsInv(s, evs[0]);
      StepKeepsFront(s, evs[0]);
      StateAt(Step(s, evs[0]), evs[1..], m - 1)
  }

  /** A search finds the line stuck on crate `i`. */
  ghost predicate Masks(s: State, ev: Event, i: nat, k: nat)
    requires Enabled(s, ev) && i < |s.crates|
  {
    ev.Serviced? && ev.idx == i && k in s.crates[i].irqen && DaemonVme.FoundStuck(s, i, ev.passes, k)
  }

  /** A request for the line is granted while the line is off, and its acknowledgement is lost. */
  ghost predicate LosesAck(s: State, ev: Event, i: nat, k: nat)
    requires Enabled(s, ev) && i < |s.crates|
  {
    && k !in s.crates[i].irqen
    && exists sel :: DaemonDispatch.Grants(s, ev, sel) && k in Irqs(sel) && ev.input.replyFails
  }

  /** A release or a hang-up recomputes the lines, or a request for the line is granted and acknowledged. */
  ghost predicate Undoes(s: State, ev: Event, k: nat)
    requires Enabled(s, ev)
  {
    || HangsUp(ev)
    || (ev.Served? && ev.input.received.Got? && ev.input.received.msg.ReleaseIrq?)
    || exists sel :: DaemonDispatch.Grants(s, ev, sel) && k in Irqs(sel) && !ev.input.replyFails
  }

  /** What a step does to the exemption of a line. */
  lemma StepExempts(s: State, ev: Event, ex: Exemptions, i: nat, k: nat)
    requires Inv(s) && Enabled(s, ev) && |ex| == |s.crates| && i < |s.crates|
    ensures |ExemptStep(s, ev, ex)| == |ex|
    ensures k in ExemptStep(s, ev, ex)[i] <==>
              Masks(s, ev, i, k) || LosesAck(s, ev, i, k) || (k in ex[i] && !Undoes(s, ev, k))
  {
    match ev
    case Serviced(idx, passes) =>
      if k in s.crates[idx].irqen { DaemonVme.MaskedForAReason(s, idx, passes, k); }
    case Served(idx, input) =>
      if input.received.Got? && input.received.msg.RequestIrq? {
        var sel := input.received.msg.selector;
        assert forall x | DaemonDispatch.Grants(s, ev, x) :: x == sel;
        assert RegisterCode(s.table, s.polls[idx].fd, sel, CanAppend(s, input)) == 0 ==>
            DaemonDispatch.Grants(s, ev, sel);
      }
    case _ =>
  }

  ghost predicate NotUndoneFrom(s: State, evs: seq<Event>, m: nat, k: nat)
    requires Inv(s) && EnabledRun(s, evs)
  {
    forall n: nat | m <= n < |evs| :: !Undoes(StateAt(s, evs, n), evs[n], k)
  }

  /** Event `m` turned the line off, and no later event has undone that. */
  ghost predicate TurnedOffAt(s: State, evs: seq<Event>, m: nat, i: nat, k: nat)
    requires Inv(s) && EnabledRun(s, evs) && i < |s.crates|
  {
    && m < |evs|
    && (Masks(StateAt(s, evs, m), evs[m], i, k) || LosesAck(StateAt(s, evs, m), evs[m], i, k))
    && NotUndoneFrom(s, evs, m + 1, k)
  }

  ghost predicate TurnedOff(s: State, evs: seq<Event>, i: nat, k: nat)
    requires Inv(s) && EnabledRun(s, evs) && i < |s.crates|
  {
    exists m: nat :: TurnedOffAt(s, evs, m, i, k)
  }

  lemma FirstStepOf(s: State, evs: seq<Event>)
    requires Inv(s) && EnabledRun(s, evs) && |evs| > 0
    ensures var t := Step(s, evs[0]); Inv(t) && EnabledRun(t, evs[1..]) && |t.crates| == |s.crates|
    ensures forall m: nat | m < |evs| :: StateAt(s, evs, m + 1) == StateAt(Step(s, evs[0]), evs[1..], m)
  {
    StepKeepsInv(s, evs[0]);
    StepKeepsFront(s, evs[0]);
  }

  lemma UndoneLater(s: State, evs: seq<Event>, m: nat, k: nat)
    requires Inv(s) && EnabledRun(s, evs) && |evs| > 0
    ensures Inv(Step(s, evs[0])) && EnabledRun(Step(s, evs[0]), evs[1..])
    ensures NotUndoneFrom(s, evs, m + 1, k) <==> NotUndoneFrom(Step(s, evs[0]), evs[1..], m, k)
    ensures NotUndoneFrom(s, evs, 0, k) <==> !Undoes(s, evs[0], k) && NotUndoneFrom(s, evs, 1, k)
  {
    FirstStepOf(s, evs);
    var t, rest := Step(s, evs[0]), evs[1..];
    if NotUndoneFrom(t, rest, m, k) {
      forall n: nat | m + 1 <= n < |evs|
        ensures !Undoes(StateAt(s, evs, n), evs[n], k)
      {
        assert !Undoes(StateAt(t, rest, n - 1), rest[n - 1], k);
      }
    }
    if NotUndoneFrom(s, evs, m + 1, k) {
      forall n: nat | m <= n < |rest|
        ensures !Undoes(StateAt(t, rest, n), rest[n], k)
      {
        assert !Undoes(StateAt(s, evs, n + 1), evs[n + 1], k);
      }
    }
    assert StateAt(s, evs, 0) == s;
  }

  lemma TurnedOffLater(s: State, evs: seq<Event>, i: nat, k: nat)
    requires Inv(s) && EnabledRun(s, evs) && |evs| > 0 && i < |s.crates|
    ensures Inv(Step(s, evs[0])) && EnabledRun(Step(s, evs[0]), evs[1..]) && i < |Step(s, evs[0]).crates|
    ensures TurnedOff(s, evs, i, k) <==> TurnedOffAt(s, evs, 0, i, k) || TurnedOff(Step(s, evs[0]), evs[1..], i, k)
  {
    FirstStepOf(s, evs);
    var t, rest := Step(s, evs[0]), evs[1..];
    forall m: nat
      ensures TurnedOffAt(s, evs, m + 1, i, k) <==> TurnedOffAt(t, rest, m, i, k)
    {
      UndoneLater(s, evs, m + 1, k);
    }
    if TurnedOff(s, evs, i, k) {
      var m: nat :| TurnedOffAt(s, evs, m, i, k);
      if m > 0 { assert TurnedOffAt(t, rest, m - 1, i, k); }
    }
    if TurnedOff(t, rest, i, k) {
      var m: nat :| TurnedOffAt(t, rest, m, i, k);
      assert TurnedOffAt(s, evs, m + 1, i, k);
    }
  }

  lemma {:induction false} ExemptMeansTurnedOff(s: State, evs: seq<Event>, ex: Exemptions, i: nat, k: nat)
    requires Inv(s) && EnabledRun(s, evs) && |ex| == |s.crates| && i < |s.crates|
    ensures |Exempt(s, evs, ex)| == |ex|
    ensures k in Exempt(s, evs, ex)[i] <==> TurnedOff(s, evs, i, k) || (k in ex[i] && NotUndoneFrom(s, evs, 0, k))
    decreases |evs|
  {
    if |evs| > 0 {
      var ev := evs[0];
      FirstStepOf(s, evs);
      StepExempts(s, ev, ex, i, k);
      ExemptMeansTurnedOff(Step(s, ev), evs[1..], ExemptStep(s, ev, ex), i, k);
      TurnedOffLater(s, evs, i, k);
      UndoneLater(s, evs, 0, k);
      assert StateAt(s, evs, 0) == s;
    }
  }

  /**
   * In every reachable state a registered line of an open crate is off if and only if some event of
   * the run turned it off, by masking it or by losing the acknowledgement of a request for it, and no
   * later release, hang-up or acknowledged request for it has undone that.
   */
  lemma RegisteredIsOffForAReason(s: State, evs: seq<Event>, i: nat, k: nat)
    requires Initial(s) && EnabledRun(s, evs) && i < |s.crates|
    ensures Inv(s) && |Run(s, evs).crates| == |s.crates|
    ensures k in Lines(Run(s, evs).table, Run(s, evs).crates[i].number) ==>
              (k !in Run(s, evs).crates[i].irqen <==> TurnedOff(s, evs, i, k))
  {
    var none: Exemptions := seq(|s.crates|, _ => {});
    InitialInv(s);
    RunKeepsFront(s, evs);
    ExemptMeansTurnedOff(s, evs, none, i, k);
    if k in Lines(Run(s, evs).table, Run(s, evs).crates[i].number) {
      RegisteredMeansEnabledOrExempt(s, evs, i, k);
    }
  }
}
