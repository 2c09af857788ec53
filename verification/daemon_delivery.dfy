/** The promise to a client: an interrupt it has registered for is signalled. */
module DaemonDelivery {
  import opened Bits
  import opened Selectors
  import opened VectorTableSpec
  import opened DaemonSpec
  import opened DaemonVme
  import opened DaemonInvariants
  import opened DaemonDispatch

  // ---------------------------------------------------------------- What a search signals

  /** An entry wants the interrupt: it names the crate and the line, and any vector or that one. */
  predicate Wants(e: Entry, c: CrateNumber, k: nat, v: u32) {
    && c as nat in Crates(e.selector) && k in Irqs(e.selector)
    && (e.selector.vector == ANYVECTOR || e.selector.vector == v)
  }

  lemma WantsIsCovers(e: Entry, sel: Selector, c: CrateNumber, k: nat, v: u32)
    requires IsInterrupt(sel, c, k, v)
    ensures Covers(e.selector, sel) <==> Wants(e, c, k, v)
  {
    assert c as nat in Crates(sel) && k in Irqs(sel);
  }

  ghost predicate FirstWanting(t: seq<Entry>, i: nat, c: CrateNumber, k: nat, v: u32) {
    i < |t| && Wants(t[i], c, k, v) && forall h | 0 <= h < i :: !Wants(t[h], c, k, v)
  }

  /** The message tells the owner of `e` of that very interrupt, with the payload it asked for. */
  predicate Tells(m: Sent, e: Entry, c: CrateNumber, k: nat, v: u32) {
    && m.Signal? && m.sock == e.data
    && IsInterrupt(m.sel, c, k, v) && m.sel.payload == e.selector.payload
  }

  /** Pass `j` of the search takes place and deals with line `k`: the highest then enabled and asserted. */
  ghost predicate Deals(s: State, idx: nat, passes: seq<Pass>, j: nat, k: nat)
    requires idx < |s.crates|
  {
    j < |passes| && j < |ProcessVme(s, idx, passes).kinds| && Found(After(s, idx, passes, j).lines, passes[j], k)
  }

  lemma {:induction false} PassTakesPlace(s: State, idx: nat, passes: seq<Pass>, j: nat, n: nat)
    requires idx < |s.crates| && n <= |passes| && j < |After(s, idx, passes, n).kinds|
    ensures j < n && exists k :: Found(After(s, idx, passes, j).lines, passes[j], k)
  {
    if n > 0 {
      var q := After(s, idx, passes, n - 1);
      NextPass(s, idx, passes, n - 1);
      if j < |q.kinds| {
        PassTakesPlace(s, idx, passes, j, n - 1);
      } else {
        PassOutcome(q.state, idx, q.lines, passes[j]);
      }
    }
  }

  /** Every pass that the search counts deals with one line. */
  lemma CountedPassDeals(s: State, idx: nat, passes: seq<Pass>, j: nat)
    requires idx < |s.crates| && j < |ProcessVme(s, idx, passes).kinds|
    ensures exists k :: Deals(s, idx, passes, j, k)
  {
    assert passes[..|passes|] == passes;
    PassTakesPlace(s, idx, passes, j, |passes|);
    var k :| Found(After(s, idx, passes, j).lines, passes[j], k);
    assert Deals(s, idx, passes, j, k);
  }

  /** What a pass owes: one message to the owner of the first entry that wants its interrupt, or none. */
  lemma OwedByPass(s: State, idx: nat, passes: seq<Pass>, j: nat, k: nat)
    requires idx < |s.crates| && Deals(s, idx, passes, j, k)
    ensures var due := Delivery(s.table, RaisedAt(s, idx, passes, j));
            var t, c, v := s.table, s.crates[idx].number, passes[j].vector;
            && |due| <= 1
            && (|due| == 0 <==> forall e | e in t :: !Wants(e, c, k, v))
            && (|due| == 1 ==> exists i: nat :: FirstWanting(t, i, c, k, v) && Tells(due[0], t[i], c, k, v))
  {
    var t, c, v, sel := s.table, s.crates[idx].number, passes[j].vector, RaisedAt(s, idx, passes, j);
    FoundIsHighest(After(s, idx, passes, j).lines, passes[j]);
    ConcreteIsConcrete(c, k, v);
    forall e: Entry
      ensures Covers(e.selector, sel) <==> Wants(e, c, k, v)
    {
      WantsIsCovers(e, sel, c, k, v);
    }
    AnswerIsFirstCover(t, sel);
    if Taken(t, sel) {
      var i: nat :| IsFirstCover(t, sel, i);
      assert FirstWanting(t, i, c, k, v) && Tells(Delivery(t, sel)[0], t[i], c, k, v);
      assert t[i] in t;
    }
  }

  /** What the search sends, beyond what had been sent before. */
  function NewlySent(s: State, idx: nat, passes: seq<Pass>): seq<Sent>
    requires idx < |s.crates|
  {
    var sent := ProcessVme(s, idx, passes).state.sent;
    if |sent| >= |s.sent| then sent[|s.sent|..] else []
  }

  lemma NewlySentIsOwed(s: State, idx: nat, passes: seq<Pass>)
    requires idx < |s.crates|
    ensures |ProcessVme(s, idx, passes).kinds| <= |passes|
    ensures NewlySent(s, idx, passes) == Deliveries(s, idx, passes, |ProcessVme(s, idx, passes).kinds|)
  {
    SearchDelivers(s, idx, passes);
  }

  /** The first entry that wants the interrupt of a pass has its owner told of it. */
  lemma WantedIsTold(s: State, idx: nat, passes: seq<Pass>, j: nat, k: nat, i: nat)
    requires idx < |s.crates| && Deals(s, idx, passes, j, k)
    requires FirstWanting(s.table, i, s.crates[idx].number, k, passes[j].vector)
    ensures exists m ::
              m in NewlySent(s, idx, passes) && Tells(m, s.table[i], s.crates[idx].number, k, passes[j].vector)
  {
    var t, c, v := s.table, s.crates[idx].number, passes[j].vector;
    var due := Delivery(t, RaisedAt(s, idx, passes, j));
    OwedByPass(s, idx, passes, j, k);
    assert t[i] in t;
    var h: nat :| FirstWanting(t, h, c, k, v) && Tells(due[0], t[h], c, k, v);
    assert h == i;
    NewlySentIsOwed(s, idx, passes);
    OwedIsDelivered(s, idx, passes, j, |ProcessVme(s, idx, passes).kinds|);
    assert due[0] in due;
  }

  lemma {:induction false} DeliveredIsOwed(s: State, idx: nat, passes: seq<Pass>, n: nat, m: Sent)
    requires idx < |s.crates| && n <= |passes| && m in Deliveries(s, idx, passes, n)
    ensures exists j: nat :: j < n && m in Delivery(s.table, RaisedAt(s, idx, passes, j))
  {
    if m !in Delivery(s.table, RaisedAt(s, idx, passes, n - 1)) { DeliveredIsOwed(s, idx, passes, n - 1, m); }
  }

  /** Every message of a search tells the owner of the first entry that wants it of the interrupt of some pass. */
  lemma ToldIsWanted(s: State, idx: nat, passes: seq<Pass>, m: Sent)
    requires idx < |s.crates| && m in NewlySent(s, idx, passes)
    ensures exists j: nat, k: nat, i: nat ::
              && Deals(s, idx, passes, j, k)
              && FirstWanting(s.table, i, s.crates[idx].number, k, passes[j].vector)
              && Tells(m, s.table[i], s.crates[idx].number, k, passes[j].vector)
  {
    NewlySentIsOwed(s, idx, passes);
    DeliveredIsOwed(s, idx, passes, |ProcessVme(s, idx, passes).kinds|, m);
    var j: nat :| j < |ProcessVme(s, idx, passes).kinds| && m in Delivery(s.table, RaisedAt(s, idx, passes, j));
    CountedPassDeals(s, idx, passes, j);
    var k :| Deals(s, idx, passes, j, k);
    OwedByPass(s, idx, passes, j, k);
  }

  // ---------------------------------------------------------------- Over runs

  lemma {:induction false} SomeEntryIsFirst(t: seq<Entry>, h: nat, c: CrateNumber, k: nat, v: u32)
    requires h < |t| && Wants(t[h], c, k, v)
    ensures exists i: nat :: i <= h && FirstWanting(t, i, c, k, v)
  {
    if i :| 0 <= i < h && Wants(t[i], c, k, v) {
      SomeEntryIsFirst(t, i, c, k, v);
    } else {
      assert FirstWanting(t, h, c, k, v);
    }
  }

  /**
   * A registration that its owner has neither released nor lost by hanging up is served. After any
   * run, each pass of a search that deals with an interrupt it wants tells the owner of the first
   * entry that wants it, which is not behind it. That is this entry when it is the only one, or when
   * it names nothing but that interrupt.
   */
  lemma InterruptIsDelivered(s: State, evs: seq<Event>, e: Entry, idx: nat, passes: seq<Pass>, j: nat, k: nat)
    requires Inv(s) && EnabledRun(s, evs) && e in s.table && NeverDropped(s, evs, e)
    requires idx < |Run(s, evs).crates| && Deals(Run(s, evs), idx, passes, j, k)
    requires Wants(e, Run(s, evs).crates[idx].number, k, passes[j].vector)
    ensures var t, v := Run(s, evs), passes[j].vector;
            var c := t.crates[idx].number;
            exists h: nat, i: nat, m ::
              && h < |t.table| && t.table[h] == e && i <= h && FirstWanting(t.table, i, c, k, v)
              && m in NewlySent(t, idx, passes) && Tells(m, t.table[i], c, k, v)
              && (IsInterrupt(e.selector, c, k, v) || OnlyWanting(t.table, e, c, k, v) ==> t.table[i] == e)
  {
    var t, v := Run(s, evs), passes[j].vector;
    var c := t.crates[idx].number;
    RegistrationLasts(s, evs, e);
    RunKeepsInv(s, evs);
    var h: nat :| h < |t.table| && t.table[h] == e;
    SomeEntryIsFirst(t.table, h, c, k, v);
    var i: nat :| i <= h && FirstWanting(t.table, i, c, k, v);
    WantedIsTold(t, idx, passes, j, k, i);
    var m :| m in NewlySent(t, idx, passes) && Tells(m, t.table[i], c, k, v);
    if IsInterrupt(e.selector, c, k, v) {
      WantsIsCovers(t.table[i], e.selector, c, k, v);
      assert i == h;
    }
    if OnlyWanting(t.table, e, c, k, v) { assert t.table[i] in t.table; }
  }

  ghost predicate OnlyWanting(t: seq<Entry>, e: Entry, c: CrateNumber, k: nat, v: u32) {
    forall x | x in t && Wants(x, c, k, v) :: x == e
  }
}
