/** The walk over the poll list: which handler is called for which slot, in which order. */
module DaemonWalk {
  import opened DaemonSpec
  import opened DaemonInvariants
  import opened DaemonRuns

  /**
   * The handler of a ready slot, by its section: a search of that crate, an accept on the server
   * socket, or a message of that client.
   */
  ghost predicate HandledAs(s: State, idx: nat, x: SlotInput, ev: Event) {
    && (idx < |s.crates| ==> ev == Serviced(idx, x.passes))
    && (idx == |s.crates| && x.client < 0 ==> ev == AcceptFailed)
    && (idx == |s.crates| && x.client >= 0 ==> ev == Accepted(x.client, x.flags))
    && (idx > |s.crates| ==> ev == Served(idx, x.input))
  }

  ghost predicate NoneReady(s: State, from: nat, to: nat) {
    forall p | from <= p < to && p < |s.polls| :: !s.polls[p].ready
  }

  /**
   * A walk from slot `idx` on that handles at most `nevents` slots: `evs[m]` is the event of slot
   * `slots[m]`, the next ready one of the list as it is then, and `env(j + m)` is what its handler
   * meets. The walk ends when enough slots are handled or no ready one is left.
   */
  ghost predicate IsWalk(s: State, idx: nat, nevents: nat, env: nat -> SlotInput, j: nat,
                         evs: seq<Event>, slots: seq<nat>)
    decreases |evs|
  {
    && |slots| == |evs|
    && if |evs| == 0 then nevents == 0 || NoneReady(s, idx, |s.polls|)
       else
         && nevents > 0
         && idx <= slots[0] < |s.polls| && s.polls[slots[0]].ready && NoneReady(s, idx, slots[0])
         && HandledAs(s, slots[0], env(j), evs[0]) && Enabled(s, evs[0])
         && IsWalk(Step(s, evs[0]), slots[0] + 1, nevents - 1, env, j + 1, evs[1..], slots[1..])
  }

  /** Some walk over the whole list leads from `s` to `t`. */
  ghost predicate WalksTo(s: State, nevents: nat, env: nat -> SlotInput, t: State) {
    exists evs, slots :: IsWalk(s, 0, nevents, env, 0, evs, slots) && EnabledRun(s, evs) && Run(s, evs) == t
  }

  lemma PassOverSlot(s: State, idx: nat, nevents: nat, env: nat -> SlotInput, j: nat,
                     evs: seq<Event>, slots: seq<nat>)
    requires idx < |s.polls| && !s.polls[idx].ready && IsWalk(s, idx + 1, nevents, env, j, evs, slots)
    ensures IsWalk(s, idx, nevents, env, j, evs, slots)
  {
  }

  lemma HandleSlot(s: State, idx: nat, nevents: nat, env: nat -> SlotInput, j: nat,
                   ev: Event, evs: seq<Event>, slots: seq<nat>)
    requires idx < |s.polls| && s.polls[idx].ready && nevents > 0
    requires HandledAs(s, idx, env(j), ev) && Enabled(s, ev)
    requires IsWalk(Step(s, ev), idx + 1, nevents - 1, env, j + 1, evs, slots)
    ensures IsWalk(s, idx, nevents, env, j, [ev] + evs, [idx] + slots)
  {
    assert ([ev] + evs)[1..] == evs && ([idx] + slots)[1..] == slots;
  }

  /** What the dispatch pass makes of a ready slot. */
  lemma ReadySlot(s: State, idx: nat, nevents: nat, env: nat -> SlotInput, j: nat)
    requires Inv(s) && EnvironmentAllowsPass(s, idx, nevents, env, j)
    requires idx < |s.polls| && nevents != 0 && s.polls[idx].ready
    ensures var ev := EventFor(s, idx, env(j));
            && HandledAs(s, idx, env(j), ev) && Enabled(s, ev) && Inv(Step(s, ev))
            && EnvironmentAllowsPass(Step(s, ev), idx + 1, nevents - 1, env, j + 1)
            && PassEvents(s, idx, nevents, env, j)
               == [ev] + PassEvents(Step(s, ev), idx + 1, nevents - 1, env, j + 1)
  {
    SlotCanBeServed(s, idx, env(j));
    StepKeepsInv(s, EventFor(s, idx, env(j)));
  }

  /** The events of the dispatch pass are those of such a walk. */
  lemma {:induction false} PassIsWalk(s: State, idx: nat, nevents: nat, env: nat -> SlotInput, j: nat)
    returns (slots: seq<nat>)
    requires Inv(s) && EnvironmentAllowsPass(s, idx, nevents, env, j)
    ensures IsWalk(s, idx, nevents, env, j, PassEvents(s, idx, nevents, env, j), slots)
    decreases nevents, |s.polls| - idx
  {
    slots := [];
    if idx < |s.polls| && nevents != 0 {
      if !s.polls[idx].ready {
        slots := PassIsWalk(s, idx + 1, nevents, env, j);
        PassOverSlot(s, idx, nevents, env, j, PassEvents(s, idx + 1, nevents, env, j), slots);
      } else {
        ReadySlot(s, idx, nevents, env, j);
        var ev := EventFor(s, idx, env(j));
        var rest := PassIsWalk(Step(s, ev), idx + 1, nevents - 1, env, j + 1);
        HandleSlot(s, idx, nevents, env, j, ev, PassEvents(Step(s, ev), idx + 1, nevents - 1, env, j + 1), rest);
        slots := [idx] + rest;
      }
    }
  }

  /**
   * A dispatch pass in which the environment does its part is such a walk: it can happen, handles one
   * event for each ready slot it meets, takes no fatal exit and keeps invariant and layout.
   */
  lemma PassWalks(s: State, nevents: nat, env: nat -> SlotInput)
    requires Inv(s) && EnvironmentAllowsPass(s, 0, nevents, env, 0)
    ensures EnabledRun(s, PassEvents(s, 0, nevents, env, 0))
    ensures var t := Run(s, PassEvents(s, 0, nevents, env, 0));
            WalksTo(s, nevents, env, t) && Inv(t) && SameFront(s, t)
  {
    DispatchPassIsSafe(s, 0, nevents, env, 0);
    var slots := PassIsWalk(s, 0, nevents, env, 0);
  }
}
