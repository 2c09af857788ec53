/** The scan of the VME space for runs of words that some card acknowledges. */
module Scans {
  import opened Bits

  /** What one read of the access register may hold: all ones when communication is lost. */
  const LOST: u32 := 0xFFFF_FFFF

  /** Of the five low bits of the register, exactly the acknowledgement bit is set. */
  predicate Acked(acc: u32) {
    And(acc, 0x1F) == 0x01
  }

  /** A word is acknowledged exactly when bit 0 of the register is set and bits 1 to 4 are clear. */
  lemma AckedBits(acc: u32)
    ensures Acked(acc) <==> BitSet(acc) * {0, 1, 2, 3, 4} == {0}
  {
    LowMask();
    MaskOperators(acc, 0x1F);
    SingleBit(0);
    assert Bit(0) == 1;
    Widths();
    ResultsFit(acc, 0x1F, 32);
    if BitSet(And(acc, 0x1F)) == {0} { SameSetSameMask(And(acc, 0x1F), 1); }
  }

  lemma LowMask()
    ensures BitSet(0x1F) == {0, 1, 2, 3, 4}
  {
    assert Bit(5) == 0x20;
    forall n: nat | n < 5 ensures HasBit(0x1F, n) { AllOnes(5, n); }
    forall n: nat | 5 <= n ensures !HasBit(0x1F, n) { NoBitAbove(0x1F, 5, n); }
  }

  /** All 32 bits are set. */
  predicate Lost(acc: u32) {
    forall n: nat | n < 32 :: n in BitSet(acc)
  }

  /** The register value that means lost communication is the one with all bits set. */
  lemma LostIsAllOnes(acc: u32)
    ensures acc == LOST <==> Lost(acc)
  {
    Widths();
    forall n: nat | n < 32 ensures HasBit(LOST, n) { AllOnes(32, n); }
    if Lost(acc) {
      assert BitSet(acc) == BitSet(LOST);
      SameSetSameMask(acc, LOST);
    }
  }

  /** A run of words `[first, end)`. */
  datatype Interval = Interval(first: nat, end: nat)

  /** A maximal run of acknowledged words. */
  ghost predicate MaximalRun(acks: seq<bool>, r: Interval) {
    && r.first < r.end <= |acks|
    && (forall i | r.first <= i < r.end :: acks[i])
    && (r.first == 0 || !acks[r.first - 1])
    && (r.end == |acks| || !acks[r.end])
  }

  /** In order, without repetition, all the maximal runs there are. */
  ghost predicate ListsAllRuns(acks: seq<bool>, rs: seq<Interval>) {
    && (forall i | 0 <= i < |rs| :: MaximalRun(acks, rs[i]))
    && (forall i, j | 0 <= i < j < |rs| :: rs[i].end < rs[j].first)
    && (forall r | MaximalRun(acks, r) :: r in rs)
  }

  /** The maximal runs, built up word by word. */
  function Runs(acks: seq<bool>): (rs: seq<Interval>)
    ensures |acks| > 0 && acks[|acks| - 1] ==> |rs| > 0
  {
    if |acks| == 0 then []
    else
      var n := |acks| - 1;
      var rs := Runs(acks[..n]);
      if !acks[n] then rs
      else if n > 0 && acks[n - 1] then rs[..|rs| - 1] + [Interval(rs[|rs| - 1].first, n + 1)]
      else rs + [Interval(n, n + 1)]
  }

  /** The runs that some further word has ended. */
  function EndedRuns(acks: seq<bool>): seq<Interval> {
    var rs := Runs(acks);
    if |acks| > 0 && acks[|acks| - 1] then rs[..|rs| - 1] else rs
  }

  /** Word positions as byte offsets. */
  function Bytes(rs: seq<Interval>): seq<Interval> {
    seq(|rs|, i requires 0 <= i < |rs| => Interval(4 * rs[i].first, 4 * rs[i].end))
  }

  /** The last run reaches the end when the last word is acknowledged. */
  ghost predicate LastReachesEnd(acks: seq<bool>, rs: seq<Interval>) {
    |acks| > 0 && acks[|acks| - 1] ==> |rs| > 0 && rs[|rs| - 1].end == |acks|
  }

  ghost predicate Correct(acks: seq<bool>, rs: seq<Interval>) {
    ListsAllRuns(acks, rs) && LastReachesEnd(acks, rs)
  }

  /** A run that ends before the new word is one of the words before it, unless it touches a new run. */
  lemma RunsOfPrefix(front: seq<bool>, x: bool, r: Interval)
    requires r.end <= |front|
    ensures MaximalRun(front + [x], r) <==> MaximalRun(front, r) && (r.end == |front| ==> !x)
  {
    var acks := front + [x];
    assert forall i | 0 <= i < |front| :: acks[i] == front[i];
    assert acks[|front|] == x;
  }

  lemma UnacknowledgedAddsNothing(front: seq<bool>, rs: seq<Interval>)
    requires Correct(front, rs)
    ensures Correct(front + [false], rs)
  {
    var acks := front + [false];
    forall i | 0 <= i < |rs| ensures MaximalRun(acks, rs[i]) { RunsOfPrefix(front, false, rs[i]); }
    forall r | MaximalRun(acks, r)
      ensures r in rs
    {
      assert acks[r.end - 1];
      RunsOfPrefix(front, false, r);
    }
  }

  /** The run that reached the end grows by one word. */
  lemma AcknowledgedExtendsLast(front: seq<bool>, rs: seq<Interval>, first: nat)
    requires |front| > 0 && Correct(front, rs + [Interval(first, |front|)])
    ensures Correct(front + [true], rs + [Interval(first, |front| + 1)])
  {
    var n, acks := |front|, front + [true];
    var before, after := rs + [Interval(first, n)], rs + [Interval(first, n + 1)];
    assert MaximalRun(front, before[|rs|]);
    assert MaximalRun(acks, Interval(first, n + 1));
    assert after[|after| - 1] == Interval(first, n + 1);
    forall i | 0 <= i < |rs|
      ensures MaximalRun(acks, rs[i]) && rs[i].end < first
    {
      assert before[i] == rs[i];
      assert before[i].end < before[|rs|].first;
      RunsOfPrefix(front, true, rs[i]);
    }
    forall i, j | 0 <= i < j < |after|
      ensures after[i].end < after[j].first
    {
      assert before[i].end < before[j].first;
      assert after[i] == before[i] && after[j].first == before[j].first;
    }
    forall r | MaximalRun(acks, r)
      ensures r in after
    {
      if r.end <= n {
        RunsOfPrefix(front, true, r);
        assert r in before;
      } else {
        assert MaximalRun(front, Interval(r.first, n)) by {
          assert forall i | r.first <= i < n :: acks[i] == front[i];
        }
        var j: nat :| j < |before| && before[j] == Interval(r.first, n);
        assert after[|rs|] == r;
      }
    }
  }

  lemma AcknowledgedStartsRun(front: seq<bool>, rs: seq<Interval>)
    requires Correct(front, rs) && (|front| > 0 ==> !front[|front| - 1])
    ensures Correct(front + [true], rs + [Interval(|front|, |front| + 1)])
  {
    var n, acks, after := |front|, front + [true], rs + [Interval(|front|, |front| + 1)];
    assert n > 0 ==> acks[n - 1] == front[n - 1];
    assert MaximalRun(acks, Interval(n, n + 1));
    forall i | 0 <= i < |rs|
      ensures MaximalRun(acks, rs[i]) && rs[i].end < n
    {
      assert MaximalRun(front, rs[i]);
      assert front[rs[i].end - 1];
      RunsOfPrefix(front, true, rs[i]);
    }
    forall r | MaximalRun(acks, r)
      ensures r in after
    {
      if r.end <= n {
        RunsOfPrefix(front, true, r);
        assert r in rs;
      } else {
        assert r.first == n;
        assert after[|rs|] == r;
      }
    }
  }

  /** The list built up word by word has, in order, exactly the maximal runs. */
  lemma {:induction false} RunsAreAllRuns(acks: seq<bool>)
    ensures Correct(acks, Runs(acks))
  {
    if |acks| > 0 {
      var n := |acks| - 1;
      var front, rs := acks[..n], Runs(acks[..n]);
      RunsAreAllRuns(front);
      assert acks == front + [acks[n]];
      if !acks[n] {
        UnacknowledgedAddsNothing(front, rs);
      } else if n > 0 && acks[n - 1] {
        var first := rs[|rs| - 1].first;
        assert rs == rs[..|rs| - 1] + [Interval(first, n)];
        AcknowledgedExtendsLast(front, rs[..|rs| - 1], first);
      } else {
        AcknowledgedStartsRun(front, rs);
      }
    } else {
      assert forall r :: !MaximalRun(acks, r);
    }
  }

  /** The ended runs are those that an unacknowledged word follows. */
  lemma EndedRunsHaveASuccessor(acks: seq<bool>, r: Interval)
    ensures r in EndedRuns(acks) <==> MaximalRun(acks, r) && r.end < |acks|
  {
    RunsAreAllRuns(acks);
    var rs := Runs(acks);
    if MaximalRun(acks, r) && r.end < |acks| {
      var j: nat :| j < |rs| && rs[j] == r;
    }
    assert MaximalRun(acks, r) ==> acks[r.end - 1];
  }

  /** What one more word does to the runs and to the ended runs. */
  lemma NextWord(acks: seq<bool>, n: nat)
    requires n < |acks|
    ensures var a, b := acks[..n], acks[..n + 1];
            var was, now := n > 0 && acks[n - 1], acks[n];
            && |Runs(b)| == |Runs(a)| + (if now && !was then 1 else 0)
            && (was ==> |Runs(a)| > 0)
            && (now ==> Runs(b)[|Runs(b)| - 1].first == if was then Runs(a)[|Runs(a)| - 1].first else n)
            && EndedRuns(b) ==
               EndedRuns(a) + if was && !now then [Interval(Runs(a)[|Runs(a)| - 1].first, n)] else []
  {
    var a, b := acks[..n], acks[..n + 1];
    assert b[..n] == a;
    RunsAreAllRuns(a);
  }

  lemma BytesOfAppend(rs: seq<Interval>, r: Interval)
    ensures Bytes(rs + [r]) == Bytes(rs) + [Interval(4 * r.first, 4 * r.end)]
  {
  }

  /** The scanner's variables after `n` words. */
  ghost predicate ScanState(acks: seq<bool>, n: nat, found: bool, count: int, start: nat, printed: seq<Interval>) {
    && n <= |acks|
    && (found <==> n > 0 && acks[n - 1])
    && count == |Runs(acks[..n])|
    && (found ==> count > 0 && start == 4 * Runs(acks[..n])[count - 1].first)
    && printed == Bytes(EndedRuns(acks[..n]))
  }

  lemma ScanStep(acks: seq<bool>, n: nat, found: bool, count: int, start: nat, printed: seq<Interval>)
    requires ScanState(acks, n, found, count, start, printed) && n < |acks|
    ensures found && !acks[n] ==>
              ScanState(acks, n + 1, false, count, start, printed + [Interval(start, 4 * n)])
    ensures !found && acks[n] ==> ScanState(acks, n + 1, true, count + 1, 4 * n, printed)
    ensures found == acks[n] ==> ScanState(acks, n + 1, found, count, start, printed)
  {
    NextWord(acks, n);
    if found {
      BytesOfAppend(EndedRuns(acks[..n]), Interval(Runs(acks[..n])[count - 1].first, n));
    }
  }

  /** How many words are read before communication is lost, if it is. */
  function UpToLost(accs: seq<u32>): (n: nat)
    ensures n <= |accs|
    ensures n < |accs| ==> accs[n] == LOST
    ensures forall i | 0 <= i < n :: accs[i] != LOST
  {
    if |accs| == 0 || accs[0] == LOST then 0 else 1 + UpToLost(accs[1..])
  }

  /** Reading `n` is the first on which communication is lost. */
  ghost predicate FirstLost(accs: seq<u32>, n: nat) {
    n < |accs| && Lost(accs[n]) && forall i | 0 <= i < n :: !Lost(accs[i])
  }

  lemma FirstLostReading(accs: seq<u32>)
    ensures UpToLost(accs) < |accs| ==> FirstLost(accs, UpToLost(accs))
    ensures UpToLost(accs) == |accs| <==> forall i | 0 <= i < |accs| :: !Lost(accs[i])
  {
    forall i | 0 <= i < |accs| ensures accs[i] == LOST <==> Lost(accs[i]) { LostIsAllOnes(accs[i]); }
  }

  /** Which words were acknowledged. */
  function Acks(accs: seq<u32>): seq<bool> {
    seq(|accs|, i requires 0 <= i < |accs| => Acked(accs[i]))
  }

  // ---------------------------------------------------------------- Runs in terms of the register

  /** Bit 0 of the register is set and bits 1 to 4 are clear. */
  predicate OnlyBit0(acc: u32) {
    BitSet(acc) * {0, 1, 2, 3, 4} == {0}
  }

  /** Among the first `n` readings, a maximal run of those with only bit 0 set. */
  ghost predicate RunOfReadings(accs: seq<u32>, n: nat, r: Interval)
    requires n <= |accs|
  {
    && r.first < r.end <= n
    && (forall i | r.first <= i < r.end :: OnlyBit0(accs[i]))
    && (r.first == 0 || !OnlyBit0(accs[r.first - 1]))
    && (r.end == n || !OnlyBit0(accs[r.end]))
  }

  /** In order and once each, all those runs. */
  ghost predicate ListsRunsOfReadings(accs: seq<u32>, n: nat, rs: seq<Interval>)
    requires n <= |accs|
  {
    && (forall r :: r in rs <==> RunOfReadings(accs, n, r))
    && (forall i, j | 0 <= i < j < |rs| :: rs[i].end < rs[j].first)
  }

  /** As byte offsets, such a run that a further reading ends; a word is four bytes. */
  ghost predicate EndsAsPrinted(accs: seq<u32>, n: nat, p: Interval)
    requires n <= |accs|
  {
    && p.first % 4 == 0 && p.end % 4 == 0 && p.end / 4 < n
    && RunOfReadings(accs, n, Interval(p.first / 4, p.end / 4))
  }

  /** In order and once each, as byte offsets, those that a further reading among the `n` ends. */
  ghost predicate PrintsRunsOfReadings(accs: seq<u32>, n: nat, printed: seq<Interval>)
    requires n <= |accs|
  {
    && (forall p :: p in printed <==> EndsAsPrinted(accs, n, p))
    && (forall i, j | 0 <= i < j < |printed| :: printed[i].end < printed[j].first)
  }

  lemma SameRuns(accs: seq<u32>, n: nat, r: Interval)
    requires n <= |accs|
    ensures MaximalRun(Acks(accs)[..n], r) <==> RunOfReadings(accs, n, r)
  {
    var acks := Acks(accs)[..n];
    forall i: nat | i < n
      ensures acks[i] <==> OnlyBit0(accs[i])
    {
      AckedBits(accs[i]);
    }
  }

  lemma RunsOfReadings(accs: seq<u32>, n: nat)
    requires n <= |accs|
    ensures ListsRunsOfReadings(accs, n, Runs(Acks(accs)[..n]))
  {
    var acks := Acks(accs)[..n];
    RunsAreAllRuns(acks);
    forall r ensures r in Runs(acks) <==> RunOfReadings(accs, n, r) { SameRuns(accs, n, r); }
  }

  lemma BytesMember(rs: seq<Interval>, p: Interval)
    ensures p in Bytes(rs) <==> p.first % 4 == 0 && p.end % 4 == 0 && Interval(p.first / 4, p.end / 4) in rs
  {
    if p in Bytes(rs) {
      var i: nat :| i < |rs| && Bytes(rs)[i] == p;
      assert rs[i] == Interval(p.first / 4, p.end / 4);
    }
    if i: nat :| i < |rs| && p.first % 4 == 0 && p.end % 4 == 0 && rs[i] == Interval(p.first / 4, p.end / 4) {
      assert Bytes(rs)[i] == p;
    }
  }

  lemma EndedRunsOfReadings(accs: seq<u32>, n: nat)
    requires n <= |accs|
    ensures PrintsRunsOfReadings(accs, n, Bytes(EndedRuns(Acks(accs)[..n])))
  {
    var acks := Acks(accs)[..n];
    var rs := EndedRuns(acks);
    RunsAreAllRuns(acks);
    forall p
      ensures p in Bytes(rs) <==> EndsAsPrinted(accs, n, p)
    {
      var r := Interval(p.first / 4, p.end / 4);
      BytesMember(rs, p);
      SameRuns(accs, n, r);
      EndedRunsHaveASuccessor(acks, r);
    }
  }

  /**
   * `accs[i]` is the access register after word `i` has been read. The count is the number of
   * maximal runs, or -1 once communication is lost; the intervals printed are the ended runs.
   */
  method RunScan(accs: seq<u32>) returns (result: int, printed: seq<Interval>)
    ensures UpToLost(accs) == |accs| ==> result == |Runs(Acks(accs))|
    ensures UpToLost(accs) < |accs| ==> result == -1
    ensures printed == Bytes(EndedRuns(Acks(accs)[..UpToLost(accs)]))
    ensures result == -1 <==> exists i :: 0 <= i < |accs| && Lost(accs[i])
    ensures result != -1 ==>
              && (exists rs :: ListsRunsOfReadings(accs, |accs|, rs) && result == |rs|)
              && PrintsRunsOfReadings(accs, |accs|, printed)
    ensures result == -1 ==>
              exists n: nat :: FirstLost(accs, n) && PrintsRunsOfReadings(accs, n, printed)
  {
    FirstLostReading(accs);
    EndedRunsOfReadings(accs, UpToLost(accs));
    RunsOfReadings(accs, |accs|);
    assert Acks(accs)[..|accs|] == Acks(accs);
    ghost var acks := Acks(accs);
    var found, count, start: nat := false, 0, 0;
    printed := [];
    var ptr := 0;
    while ptr < |accs|
      invariant 0 <= ptr <= UpToLost(accs)
      invariant ScanState(acks, ptr, found, count, start, printed)
    {
      var lastacc := accs[ptr];
      if lastacc == LOST {
        return -1, printed;
      }
      ScanStep(acks, ptr, found, count, start, printed);
      if found && !Acked(lastacc) {
        printed := printed + [Interval(start, 4 * ptr)];
        found := false;
      } else if !found && Acked(lastacc) {
        start := 4 * ptr;
        found := true;
        count := count + 1;
      }
      ptr := ptr + 1;
    }
    assert acks[..ptr] == acks;
    result := count;
  }
}
