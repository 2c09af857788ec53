/** The interrupt search: what each pass leaves alone, where signals go, and why it ends. */
module DaemonVme {
  import opened Bits
  import ErrorNumbers
  import opened Selectors
  import opened VectorTableSpec
  import opened Messages
  import opened DaemonSpec

  const IRQ_LINES: set<nat> := {1, 2, 3, 4, 5, 6, 7}

  /** `t` is `s` after some signals and their replies, with the lines of crate `idx` set to `lines`. */
  ghost predicate OnlyLinesChanged(s: State, t: State, idx: nat, lines: set<nat>)
    requires idx < |s.crates|
  {
    && s.sent <= t.sent && s.read <= t.read
    && t == s.(crates := s.crates[idx := s.crates[idx].(irqen := lines)], sent := t.sent, read := t.read)
  }

  /** A signal goes to the owner of the first covering entry and carries the payload it asked for. */
  ghost predicate ReachesOwner(t: seq<Entry>, m: Sent) {
    m.Signal? ==> Answer(t, m.sel).Some? && Answer(t, m.sel).value.data == m.sock
                  && Answer(t, m.sel).value.selector.payload == m.sel.payload
  }

  /** What an interrupt search sends: concrete interrupts of that crate, to their owners. */
  ghost predicate FromCrate(t: seq<Entry>, c: CrateNumber, m: Sent) {
    && m.Signal? && ReachesOwner(t, m)
    && Crates(m.sel) == {c as nat}
    && exists k :: k in IRQ_LINES && Irqs(m.sel) == {k}
  }

  lemma AnswerIgnoresPayload(t: seq<Entry>, sel: Selector, payload: u32)
    ensures Answer(t, sel.(payload := payload)) == Answer(t, sel)
  {
  }

  /** The selector of one interrupt: that crate, that line and that vector. */
  predicate IsInterrupt(sel: Selector, c: CrateNumber, k: nat, v: u32) {
    Crates(sel) == {c as nat} && Irqs(sel) == {k} && sel.vector == v
  }

  lemma ConcreteIsConcrete(c: CrateNumber, irq: nat, vector: u32)
    requires irq < 8
    ensures IsInterrupt(Concrete(c, irq, vector), c, irq, vector)
  {
    SingleBit(c);
    SingleBit(irq);
  }

  /** Line `k` is the highest of the lines 7 to 1 that are enabled and asserted. */
  predicate Found(lines: set<nat>, p: Pass, k: nat) {
    && 1 <= k <= 7 && k in lines && k in BitSet(p.status)
    && forall h | k < h <= 7 :: !(h in lines && h in BitSet(p.status))
  }

  lemma FoundIsHighest(lines: set<nat>, p: Pass)
    ensures forall k :: Found(lines, p, k) <==> k != 0 && k == HighestLine(BitSet(p.status) * lines)
  {
    var h := HighestLine(BitSet(p.status) * lines);
    assert h != 0 ==> h in BitSet(p.status) * lines;
    forall k
      ensures Found(lines, p, k) <==> k != 0 && k == h
    {
      if Found(lines, p, k) { assert k in BitSet(p.status) * lines; }
    }
  }

  /** No entry covers the interrupt. */
  ghost predicate Unanswered(t: seq<Entry>, c: CrateNumber, k: nat, v: u32) {
    forall sel | IsInterrupt(sel, c, k, v) :: !Taken(t, sel)
  }

  /** Selectors of the same interrupt have the same answer. */
  lemma InterruptsAgree(t: seq<Entry>, a: Selector, b: Selector, c: CrateNumber, k: nat, v: u32)
    requires IsInterrupt(a, c, k, v) && IsInterrupt(b, c, k, v)
    ensures HashEq(a, b) && Answer(t, a) == Answer(t, b)
  {
    SameSetSameMask(a.crate, b.crate);
    SameSetSameMask(a.irq, b.irq);
    AnswerDependsOnKey(t, a, b);
  }

  /** A notification fails exactly when no entry covers the interrupt or its owner does not acknowledge it. */
  lemma NotificationFails(t: seq<Entry>, c: CrateNumber, k: nat, v: u32, x: Exchange)
    requires k < 8
    ensures NotifyCode(t, Concrete(c, k, v), x) != 0 <==> Unanswered(t, c, k, v) || x != Delivered(Got(Ack))
  {
    var sel := Concrete(c, k, v);
    ConcreteIsConcrete(c, k, v);
    AnswerIsFirstCover(t, sel);
    HandshakeSucceedsOnAck(x);
    forall a | IsInterrupt(a, c, k, v)
      ensures Taken(t, a) <==> Taken(t, sel)
    {
      InterruptsAgree(t, a, sel, c, k, v);
      AnswerIsFirstCover(t, a);
    }
  }

  /**
   * Why a pass on crate `c` turns line `k` off: it is the highest line asserted, no entry covers its
   * interrupt or the owner does not acknowledge it, and the second reading still shows it.
   */
  ghost predicate Stuck(t: seq<Entry>, c: CrateNumber, lines: set<nat>, p: Pass, k: nat) {
    && Found(lines, p, k)
    && (Unanswered(t, c, k, p.vector) || p.exchange != Delivered(Got(Ack)))
    && k in BitSet(p.after)
  }

  /** What is owed when an interrupt comes: one signal to the owner of the answering entry, if there is one. */
  function Delivery(t: seq<Entry>, sel: Selector): seq<Sent> {
    match Answer(t, sel)
    case None => []
    case Some(e) => [Signal(e.data, sel.(payload := e.selector.payload))]
  }

  lemma DeliveryReachesOwner(t: seq<Entry>, sel: Selector)
    ensures |Delivery(t, sel)| == if Answer(t, sel).Some? then 1 else 0
    ensures forall m | m in Delivery(t, sel) ::
              m.Signal? && ReachesOwner(t, m) && Crates(m.sel) == Crates(sel) && Irqs(m.sel) == Irqs(sel)
  {
    if Answer(t, sel).Some? {
      AnswerIgnoresPayload(t, sel, Answer(t, sel).value.selector.payload);
    }
  }

  /** A notification sends exactly what is owed, may read a message, and changes nothing else. */
  lemma NotifyEffect(s: State, sel: Selector, x: Exchange)
    ensures var t := NotifyIrq(s, sel, x).0;
            && t == s.(sent := s.sent + Delivery(s.table, sel), read := t.read)
            && s.read <= t.read
            && (Answer(s.table, sel).None? ==> t == s)
  {
  }

  /** One pass changes at most one enable bit, and clears it only if it was set. */
  lemma PassEffect(s: State, idx: nat, lines: set<nat>, p: Pass)
    requires idx < |s.crates| && s.crates[idx].irqen == lines
    ensures var r := VmePass(s, idx, lines, p);
            r.Went? ==>
              && OnlyLinesChanged(s, r.state, idx, r.lines)
              && (r.kind == Masked <==> r.lines != lines)
              && (r.kind == Masked ==> exists k :: k in lines && k in IRQ_LINES && r.lines == lines - {k})
  {
    var asserted := BitSet(p.status) * lines;
    var irq := HighestLine(asserted);
    if asserted != {} && irq != 0 {
      NotifyEffect(s, Concrete(s.crates[idx].number, irq, p.vector), p.exchange);
      assert irq in IRQ_LINES;
      assert s.crates[idx := s.crates[idx].(irqen := lines)] == s.crates;
    }
  }

  ghost predicate AllFromCrate(t: seq<Entry>, c: CrateNumber, sent: seq<Sent>, start: nat) {
    forall j | start <= j < |sent| :: FromCrate(t, c, sent[j])
  }

  /** The interrupt that a pass finds when `lines` are enabled. */
  function Raised(c: CrateNumber, lines: set<nat>, p: Pass): Selector {
    Concrete(c, HighestLine(BitSet(p.status) * lines), p.vector)
  }

  /** One pass delivers the interrupt it finds. */
  lemma PassSends(s: State, idx: nat, lines: set<nat>, p: Pass)
    requires idx < |s.crates|
    ensures var r, due := VmePass(s, idx, lines, p), Delivery(s.table, Raised(s.crates[idx].number, lines, p));
            r.Went? ==>
              && r.state.sent == s.sent + due
              && forall m | m in due :: FromCrate(s.table, s.crates[idx].number, m)
  {
    var irq := HighestLine(BitSet(p.status) * lines);
    if irq != 0 {
      var sel := Concrete(s.crates[idx].number, irq, p.vector);
      NotifyEffect(s, sel, p.exchange);
      ConcreteIsConcrete(s.crates[idx].number, irq, p.vector);
      DeliveryReachesOwner(s.table, sel);
      assert irq in IRQ_LINES;
    }
  }

  /** What a pass does: nothing, for want of an enabled line asserted, or it deals with the line found. */
  lemma PassOutcome(s: State, idx: nat, lines: set<nat>, p: Pass)
    requires idx < |s.crates|
    ensures var r, t, c := VmePass(s, idx, lines, p), s.table, s.crates[idx].number;
            && (r.Quiet? <==> BitSet(p.status) * lines == {})
            && (r.Went? <==> exists k :: Found(lines, p, k))
            && forall k | Found(lines, p, k) ::
                 && (r.kind == Acked <==> !Unanswered(t, c, k, p.vector) && p.exchange == Delivered(Got(Ack)))
                 && (r.kind == Masked <==> Stuck(t, c, lines, p, k))
                 && r.lines == if Stuck(t, c, lines, p, k) then lines - {k} else lines
  {
    var irq := HighestLine(BitSet(p.status) * lines);
    FoundIsHighest(lines, p);
    if irq != 0 {
      assert Found(lines, p, irq);
      NotificationFails(s.table, s.crates[idx].number, irq, p.vector, p.exchange);
    }
  }

  /** One pass turns off exactly the line that is stuck, if there is one. */
  lemma PassMasksStuckLine(s: State, idx: nat, lines: set<nat>, p: Pass)
    requires idx < |s.crates|
    ensures var r, t, c := VmePass(s, idx, lines, p), s.table, s.crates[idx].number;
            r.Went? ==>
              && (r.kind == Masked <==> exists k :: Stuck(t, c, lines, p, k))
              && (forall k :: Stuck(t, c, lines, p, k) ==> r.lines == lines - {k})
  {
    PassOutcome(s, idx, lines, p);
  }

  function CountMasked(kinds: seq<PassKind>): nat {
    if |kinds| == 0 then 0 else (if kinds[0] == Masked then 1 else 0) + CountMasked(kinds[1..])
  }

  /**
   * The whole search changes nothing but its crate's lines and the messages sent. Every pass that
   * is neither acknowledged nor sees its line drop uses up one enabled line.
   */
  lemma {:induction false} SearchEffect(s: State, idx: nat, lines: set<nat>, passes: seq<Pass>)
    requires idx < |s.crates| && s.crates[idx].irqen == lines
    ensures var r := VmeLoop(s, idx, lines, passes);
            && OnlyLinesChanged(s, r.state.(exited := s.exited), idx, r.lines)
            && (r.state.exited <==> s.exited || r.outcome == Fatal)
            && r.lines <= lines
            && |r.lines| + CountMasked(r.kinds) == |lines|
            && |r.kinds| <= |passes|
            && (r.outcome == Busy ==> |r.kinds| == |passes|)
    decreases |passes|
  {
    assert s.crates[idx := s.crates[idx].(irqen := lines)] == s.crates;
    if |passes| > 0 {
      var p := VmePass(s, idx, lines, passes[0]);
      PassEffect(s, idx, lines, passes[0]);
      if p.Went? {
        SearchEffect(p.state, idx, p.lines, passes[1..]);
      }
    }
  }

  // ---------------------------------------------------------------- The passes of a search

  /** One pass, and then the rest of a search. */
  function Joined(kinds: seq<PassKind>, rest: VmeResult): VmeResult {
    rest.(kinds := kinds + rest.kinds)
  }

  lemma JoinedTwice(a: seq<PassKind>, b: seq<PassKind>, rest: VmeResult)
    ensures Joined(a, Joined(b, rest)) == Joined(a + b, rest)
  {
    assert a + (b + rest.kinds) == (a + b) + rest.kinds;
  }

  lemma FirstPass(s: State, idx: nat, lines: set<nat>, passes: seq<Pass>)
    requires idx < |s.crates| && s.crates[idx].irqen == lines && |passes| > 0
    ensures var p, r := VmePass(s, idx, lines, passes[0]), VmeLoop(s, idx, lines, passes);
            && (p.Went? ==>
                  && idx < |p.state.crates| && p.state.crates[idx].irqen == p.lines
                  && r == Joined([p.kind], VmeLoop(p.state, idx, p.lines, passes[1..])))
            && (!p.Went? ==> r.outcome != Busy && r == VmeLoop(s, idx, lines, [passes[0]]))
  {
    PassEffect(s, idx, lines, passes[0]);
  }

  /** A search that is not over goes on from where it stands; one that is over is not affected. */
  ghost predicate GoesOn(idx: nat, q: VmeResult, r: VmeResult, b: seq<Pass>) {
    && idx < |q.state.crates|
    && r == if q.outcome != Busy then q else Joined(q.kinds, VmeLoop(q.state, idx, q.lines, b))
  }

  lemma {:induction false} SearchGoesOn(s: State, idx: nat, lines: set<nat>, a: seq<Pass>, b: seq<Pass>)
    requires idx < |s.crates| && s.crates[idx].irqen == lines
    ensures GoesOn(idx, VmeLoop(s, idx, lines, a), VmeLoop(s, idx, lines, a + b), b)
    decreases |a|
  {
    if |a| == 0 {
      assert a + b == b;
    } else {
      assert (a + b)[1..] == a[1..] + b;
      FirstPass(s, idx, lines, a);
      FirstPass(s, idx, lines, a + b);
      var p := VmePass(s, idx, lines, a[0]);
      if p.Went? {
        SearchGoesOn(p.state, idx, p.lines, a[1..], b);
        var q := VmeLoop(p.state, idx, p.lines, a[1..]);
        JoinedTwice([p.kind], q.kinds, VmeLoop(q.state, idx, q.lines, b));
      }
    }
  }

  lemma OnePass(s: State, idx: nat, lines: set<nat>, p: Pass)
    requires idx < |s.crates| && s.crates[idx].irqen == lines
    ensures var one, r := VmePass(s, idx, lines, p), VmeLoop(s, idx, lines, [p]);
            && (one.Went? ==> r == VmeResult(one.state, one.lines, Busy, [one.kind]))
            && (!one.Went? ==> r.outcome != Busy && r.lines == lines && r.kinds == [] && r.state.sent == s.sent)
  {
    FirstPass(s, idx, lines, [p]);
    assert [p][1..] == [];
  }

  /** The first `n` passes of a search: how it stands after them. */
  function After(s: State, idx: nat, passes: seq<Pass>, n: nat): VmeResult
    requires idx < |s.crates| && n <= |passes|
  {
    ProcessVme(s, idx, passes[..n])
  }

  /** How pass `n` takes the search on. */
  lemma NextPass(s: State, idx: nat, passes: seq<Pass>, n: nat)
    requires idx < |s.crates| && n < |passes|
    ensures var q, r := After(s, idx, passes, n), After(s, idx, passes, n + 1);
            && |q.kinds| <= n
            && q.state.table == s.table
            && |q.state.crates| == |s.crates| && q.state.crates[idx] == s.crates[idx].(irqen := q.lines)
            && (q.outcome != Busy ==> r == q)
            && (q.outcome == Busy ==>
                  var p := VmePass(q.state, idx, q.lines, passes[n]);
                  && |q.kinds| == n
                  && (p.Went? <==> r.outcome == Busy)
                  && (p.Went? ==> r == VmeResult(p.state, p.lines, Busy, q.kinds + [p.kind]))
                  && (!p.Went? ==> r.lines == q.lines && r.kinds == q.kinds && r.state.sent == q.state.sent))
  {
    var lines, a := s.crates[idx].irqen, passes[..n];
    var q := VmeLoop(s, idx, lines, a);
    SearchEffect(s, idx, lines, a);
    SearchGoesOn(s, idx, lines, a, [passes[n]]);
    assert passes[..n + 1] == a + [passes[n]];
    if q.outcome == Busy {
      OnePass(q.state, idx, q.lines, passes[n]);
      assert q.kinds + [] == q.kinds;
    }
  }

  /** The search comes to pass `j`, with the lines enabled at that time, and finds line `k` stuck. */
  ghost predicate StuckAt(s: State, idx: nat, passes: seq<Pass>, j: nat, k: nat)
    requires idx < |s.crates| && j < |passes|
  {
    var q := After(s, idx, passes, j);
    q.outcome == Busy && Stuck(s.table, s.crates[idx].number, q.lines, passes[j], k)
  }

  ghost predicate FoundStuck(s: State, idx: nat, passes: seq<Pass>, k: nat)
    requires idx < |s.crates|
  {
    exists j: nat :: j < |passes| && StuckAt(s, idx, passes, j, k)
  }

  lemma {:induction false} MaskedWithin(s: State, idx: nat, passes: seq<Pass>, k: nat, n: nat)
    requires idx < |s.crates| && n <= |passes| && k in s.crates[idx].irqen
    ensures k !in After(s, idx, passes, n).lines <==> exists j: nat :: j < n && StuckAt(s, idx, passes, j, k)
  {
    if n > 0 {
      var q := After(s, idx, passes, n - 1);
      MaskedWithin(s, idx, passes, k, n - 1);
      NextPass(s, idx, passes, n - 1);
      PassMasksStuckLine(q.state, idx, q.lines, passes[n - 1]);
      assert StuckAt(s, idx, passes, n - 1, k) ==> n - 1 < n;
    }
  }

  /**
   * A search turns an enabled line off if and only if one of its passes finds it stuck: the highest
   * of the lines then enabled and asserted, taken by nobody, and still there.
   */
  lemma MaskedForAReason(s: State, idx: nat, passes: seq<Pass>, k: nat)
    requires idx < |s.crates| && k in s.crates[idx].irqen
    ensures k !in ProcessVme(s, idx, passes).lines <==> FoundStuck(s, idx, passes, k)
  {
    assert passes[..|passes|] == passes;
    MaskedWithin(s, idx, passes, k, |passes|);
  }

  /** The interrupt that pass `j` finds, with the lines enabled at that time. */
  function RaisedAt(s: State, idx: nat, passes: seq<Pass>, j: nat): Selector
    requires idx < |s.crates| && j < |passes|
  {
    Raised(s.crates[idx].number, After(s, idx, passes, j).lines, passes[j])
  }

  /** What the first `n` passes owe, in order. */
  function Deliveries(s: State, idx: nat, passes: seq<Pass>, n: nat): seq<Sent>
    requires idx < |s.crates| && n <= |passes|
  {
    if n == 0 then [] else Deliveries(s, idx, passes, n - 1) + Delivery(s.table, RaisedAt(s, idx, passes, n - 1))
  }

  lemma NextPassSends(s: State, idx: nat, passes: seq<Pass>, n: nat)
    requires idx < |s.crates| && n < |passes|
    ensures var q, r := After(s, idx, passes, n), After(s, idx, passes, n + 1);
            && (|r.kinds| == |q.kinds| ==> r.state.sent == q.state.sent)
            && (|r.kinds| != |q.kinds| ==>
                  && |q.kinds| == n && |r.kinds| == n + 1
                  && r.state.sent == q.state.sent + Delivery(s.table, RaisedAt(s, idx, passes, n)))
  {
    var q := After(s, idx, passes, n);
    NextPass(s, idx, passes, n);
    if q.outcome == Busy { PassSends(q.state, idx, q.lines, passes[n]); }
  }

  lemma {:induction false} DeliversWithin(s: State, idx: nat, passes: seq<Pass>, n: nat)
    requires idx < |s.crates| && n <= |passes|
    ensures var r := After(s, idx, passes, n);
            |r.kinds| <= n && r.state.sent == s.sent + Deliveries(s, idx, passes, |r.kinds|)
  {
    if n > 0 {
      DeliversWithin(s, idx, passes, n - 1);
      NextPassSends(s, idx, passes, n - 1);
    }
  }

  /**
   * A search sends exactly what its passes owe: for each pass that deals with a line one signal, if
   * an entry covers the interrupt, and none otherwise.
   */
  lemma SearchDelivers(s: State, idx: nat, passes: seq<Pass>)
    requires idx < |s.crates|
    ensures var r := ProcessVme(s, idx, passes);
            |r.kinds| <= |passes| && r.state.sent == s.sent + Deliveries(s, idx, passes, |r.kinds|)
  {
    assert passes[..|passes|] == passes;
    DeliversWithin(s, idx, passes, |passes|);
  }

  /** What one pass owes is among what all of them owe. */
  lemma {:induction false} OwedIsDelivered(s: State, idx: nat, passes: seq<Pass>, j: nat, n: nat)
    requires idx < |s.crates| && j < n <= |passes|
    ensures forall m | m in Delivery(s.table, RaisedAt(s, idx, passes, j)) :: m in Deliveries(s, idx, passes, n)
  {
    if j + 1 < n { OwedIsDelivered(s, idx, passes, j, n - 1); }
  }

  lemma AllFromCrateJoin(t: seq<Entry>, c: CrateNumber, a: seq<Sent>, b: seq<Sent>, start: nat)
    requires a <= b && AllFromCrate(t, c, a, start) && AllFromCrate(t, c, b, |a|)
    ensures AllFromCrate(t, c, b, start)
  {
    forall j | start <= j < |b| ensures FromCrate(t, c, b[j]) { assert j < |a| ==> b[j] == a[j]; }
  }

  /** Every message the search sends is a concrete interrupt of its crate, sent to its owner. */
  lemma {:induction false} SearchSignals(s: State, idx: nat, lines: set<nat>, passes: seq<Pass>)
    requires idx < |s.crates| && s.crates[idx].irqen == lines
    ensures AllFromCrate(s.table, s.crates[idx].number, VmeLoop(s, idx, lines, passes).state.sent, |s.sent|)
    decreases |passes|
  {
    if |passes| > 0 {
      var p := VmePass(s, idx, lines, passes[0]);
      PassEffect(s, idx, lines, passes[0]);
      PassSends(s, idx, lines, passes[0]);
      if p.Went? {
        var r := VmeLoop(p.state, idx, p.lines, passes[1..]);
        SearchEffect(p.state, idx, p.lines, passes[1..]);
        SearchSignals(p.state, idx, p.lines, passes[1..]);
        AllFromCrateJoin(s.table, s.crates[idx].number, p.state.sent, r.state.sent, |s.sent|);
      }
    }
  }

  /** The search returns only on a reading that shows no enabled line asserted. */
  lemma {:induction false} SearchEndsQuiet(s: State, idx: nat, lines: set<nat>, passes: seq<Pass>)
    requires idx < |s.crates|
    requires VmeLoop(s, idx, lines, passes).outcome == Returned
    ensures var r := VmeLoop(s, idx, lines, passes);
            |r.kinds| < |passes| && BitSet(passes[|r.kinds|].status) * r.lines == {}
    decreases |passes|
  {
    var p := VmePass(s, idx, lines, passes[0]);
    if p.Went? {
      SearchEndsQuiet(p.state, idx, p.lines, passes[1..]);
    }
  }

  /** With only IRQ1 to IRQ7 enabled the impossible reading cannot occur. */
  lemma {:induction false} SearchIsNeverFatal(s: State, idx: nat, lines: set<nat>, passes: seq<Pass>)
    requires idx < |s.crates| && s.crates[idx].irqen == lines && lines <= IRQ_LINES
    ensures VmeLoop(s, idx, lines, passes).outcome != Fatal
    decreases |passes|
  {
    if |passes| > 0 {
      var p := VmePass(s, idx, lines, passes[0]);
      PassEffect(s, idx, lines, passes[0]);
      var asserted := BitSet(passes[0].status) * lines;
      if asserted != {} {
        var k :| k in asserted;
        assert HighestLine(asserted) != 0;
      }
      if p.Went? {
        SearchIsNeverFatal(p.state, idx, p.lines, passes[1..]);
      }
    }
  }

  ghost predicate EndsFatally(s: State, idx: nat, passes: seq<Pass>)
    requires idx < |s.crates|
  {
    ProcessVme(s, idx, passes).outcome == Fatal
  }

  /** The impossible reading can occur exactly when a line other than IRQ1 to IRQ7 is enabled. */
  lemma FatalNeedsStrayLine(s: State, idx: nat)
    requires idx < |s.crates| && forall k | k in s.crates[idx].irqen :: k < 32
    ensures (exists passes :: EndsFatally(s, idx, passes)) <==> !(s.crates[idx].irqen <= IRQ_LINES)
  {
    var lines := s.crates[idx].irqen;
    if lines <= IRQ_LINES {
      forall passes ensures !EndsFatally(s, idx, passes) { SearchIsNeverFatal(s, idx, lines, passes); }
    } else {
      var k :| k in lines && k !in IRQ_LINES;
      SingleBit(k);
      var p := Pass(Bit(k), 0, SendError(ErrorNumbers.EPERM), 0);
      assert BitSet(p.status) * lines == {k};
      assert EndsFatally(s, idx, [p]);
    }
  }

  lemma AtMostSeven(lines: set<nat>)
    requires lines <= IRQ_LINES
    ensures |lines| <= 7
  {
    SubsetIsNoLarger(lines, IRQ_LINES);
  }

  /**
   * The search ends whenever acknowledgements and line drops are finite: with at most `bound` of
   * them, no more than `bound + 7` passes deal with a line.
   */
  lemma SearchTerminates(s: State, idx: nat, passes: seq<Pass>, bound: nat)
    requires idx < |s.crates| && s.crates[idx].irqen <= IRQ_LINES
    requires var kinds := ProcessVme(s, idx, passes).kinds; |kinds| - CountMasked(kinds) <= bound
    ensures var r := ProcessVme(s, idx, passes);
            && CountMasked(r.kinds) <= |s.crates[idx].irqen| <= 7
            && |r.kinds| <= bound + 7
            && (|passes| > bound + 7 ==> r.outcome == Returned)
  {
    var lines := s.crates[idx].irqen;
    SearchEffect(s, idx, lines, passes);
    SearchIsNeverFatal(s, idx, lines, passes);
    AtMostSeven(lines);
  }

  lemma {:induction false} SubsetIsNoLarger(a: set<nat>, b: set<nat>)
    requires a <= b
    ensures |a| <= |b|
  {
    if a != {} {
      var x :| x in a;
      SubsetIsNoLarger(a - {x}, b - {x});
    }
  }
}
