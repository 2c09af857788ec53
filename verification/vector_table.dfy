/** The vector table as the daemon stores it: one array, live entries first, the rest zeroed. */
module VectorTables {
  import opened Bits
  import opened ErrorNumbers
  import opened Selectors
  import opened VectorTableSpec

  const UNUSED := Entry(Selector(0, 0, 0, 0), 0)

  lemma ConstantMasks()
    ensures BitSet(ANYIRQ) == {1, 2, 3, 4, 5, 6, 7}
    ensures BitSet(0xFF) == LOW8
  {
    Widths();
    assert Bit(7) == 0x80;
    assert !HasBit(0xFE, 0);
    forall n: nat | 1 <= n < 8 ensures HasBit(0xFE, n) { AllOnes(7, n - 1); }
    forall n: nat | n < 8 ensures HasBit(0xFF, n) { AllOnes(8, n); }
    forall n: nat | 8 <= n
      ensures !HasBit(0xFE, n) && !HasBit(0xFF, n)
    {
      NoBitAbove(0xFE, 8, n);
      NoBitAbove(0xFF, 8, n);
    }
  }

  /** The validity checks on the raw masks. */
  lemma LegalTest(req: Selector)
    ensures req.crate != 0 && req.irq != 0 && AndNot(req.irq, ANYIRQ) == 0 <==> Legal(req)
  {
    EmptyMask(req.crate);
    EmptyMask(req.irq);
    MaskOperators(req.irq, ANYIRQ);
    EmptyMask(AndNot(req.irq, ANYIRQ));
    ConstantMasks();
  }

  class VectorTable {
    var slots: array<Entry>
    ghost var entries: seq<Entry>

    ghost predicate Valid()
      reads this, slots
    {
      && slots.Length % INCR == 0
      && |entries| <= slots.Length
      && (forall i | 0 <= i < |entries| :: slots[i] == entries[i] && slots[i].data != 0)
      && (forall i | |entries| <= i < slots.Length :: slots[i] == UNUSED)
    }

    constructor ()
      ensures Valid() && entries == [] && slots.Length == 0 && fresh(slots)
    {
      slots := new Entry[0];
      entries := [];
    }

    /** Whether an entry answers the request, and where it stands. */
    method LocateInterrupt(req: Selector) returns (found: bool, ptr: nat)
      requires Valid()
      ensures found <==> FirstCover(entries, req) < |entries|
      ensures found ==> ptr == FirstCover(entries, req)
    {
      ptr := 0;
      while ptr < slots.Length && slots[ptr].data != 0
        invariant ptr <= |entries|
        invariant forall j | 0 <= j < ptr :: !Covers(entries[j].selector, req)
      {
        MatchTestDecidesCovers(slots[ptr].selector, req);
        if HashMatch(slots[ptr].selector, req) {
          var pvec := slots[ptr].selector.vector;
          if pvec == ANYVECTOR || pvec == req.vector {
            return true, ptr;
          }
        }
        ptr := ptr + 1;
      }
      found := false;
    }

    method RemoveEntry(victim: nat)
      requires Valid() && victim < |entries|
      modifies this`entries, slots
      ensures Valid() && entries == RemoveAt(old(entries), victim)
    {
      var last := victim;
      while last < slots.Length && slots[last].data != 0
        invariant victim <= last <= |entries|
      {
        last := last + 1;
      }
      last := last - 1;
      if last != victim {
        forall i | victim <= i < last {
          slots[i] := slots[i + 1];
        }
      }
      slots[last] := UNUSED;
      entries := RemoveAt(entries, victim);
    }

    /** Who is to be told, and the request with the payload the owner asked for. */
    method FindInterrupt(req: Selector) returns (data: int, found: Selector, errno: int)
      requires Valid()
      ensures match Answer(entries, req)
              case Some(e) => data == e.data && found == req.(payload := e.selector.payload) && errno == 0
              case None => data == 0 && found == req && errno == EINVAL
    {
      var ok, ptr := LocateInterrupt(req);
      if !ok {
        return 0, req, EINVAL;
      }
      return slots[ptr].data, req.(payload := slots[ptr].selector.payload), 0;
    }

    /** `memory` is whether an allocation would succeed; it matters only when the table is full. */
    method RegisterInterrupt(sd: int, req: Selector, memory: bool) returns (ret: int)
      requires Valid()
      modifies this, slots
      ensures Valid() && (slots == old(slots) || fresh(slots))
      ensures var canAppend := old(|entries| < slots.Length) || memory;
              && ret == RegisterCode(old(entries), sd, req, canAppend)
              && entries == Register(old(entries), sd, req, canAppend)
      ensures ret == 0 <==>
                sd != 0 && Legal(req) && !Taken(old(entries), req) && (old(|entries| < slots.Length) || memory)
      ensures ret == -EINVAL <==> sd == 0 || !Legal(req)
      ensures ret == -EADDRINUSE <==> sd != 0 && Legal(req) && Taken(old(entries), req)
      ensures ret == -ENOMEM <==>
                sd != 0 && Legal(req) && !Taken(old(entries), req) && !(old(|entries| < slots.Length) || memory)
      ensures entries == if ret == 0 then old(entries) + [Entry(req, sd)] else old(entries)
      ensures slots.Length == old(slots.Length) + if ret == 0 && old(|entries| == slots.Length) then INCR else 0
    {
      LegalTest(req);
      RegisterOutcome(entries, sd, req, |entries| < slots.Length || memory);
      if sd == 0 { return -EINVAL; }
      if req.crate == 0 { return -EINVAL; }
      if req.irq == 0 || AndNot(req.irq, ANYIRQ) != 0 { return -EINVAL; }

      var taken, ptr := LocateInterrupt(req);
      if taken { return -EADDRINUSE; }

      ptr := 0;
      while ptr < slots.Length && slots[ptr].data != 0
        invariant ptr <= |entries|
      {
        ptr := ptr + 1;
      }
      if ptr == slots.Length {
        if !memory { return -ENOMEM; }
        var bigger := new Entry[slots.Length + INCR](_ => UNUSED);
        forall i | 0 <= i < slots.Length {
          bigger[i] := slots[i];
        }
        slots := bigger;
      }
      slots[ptr] := Entry(req, sd);
      entries := entries + [Entry(req, sd)];
      ret := 0;
    }

    method ReleaseInterrupt(sd: int, req: Selector) returns (ret: int)
      requires Valid()
      modifies this`entries, slots
      ensures Valid()
      ensures ret == ReleaseCode(old(entries), sd, req)
      ensures entries == Release(old(entries), sd, req)
      ensures ret == 0 <==> exists i: nat :: IsFirstEqual(old(entries), req, i) && old(entries)[i].data == sd
      ensures ret != 0 ==> ret == -EINVAL && entries == old(entries)
    {
      ReleaseOutcome(entries, sd, req);
      var ptr := 0;
      while ptr < slots.Length && slots[ptr].data != 0 && !HashEq(slots[ptr].selector, req)
        invariant ptr <= |entries|
        invariant forall j | 0 <= j < ptr :: !HashEq(entries[j].selector, req)
      {
        ptr := ptr + 1;
      }
      if ptr == slots.Length || slots[ptr].data == 0 { return -EINVAL; }
      if slots[ptr].data != sd { return -EINVAL; }
      RemoveEntry(ptr);
      ret := 0;
    }

    method CountRegisteredInterrupts() returns (ret: nat)
      requires Valid()
      ensures ret == |entries|
    {
      ret := 0;
      while ret < slots.Length && slots[ret].data != 0
        invariant ret <= |entries|
      {
        ret := ret + 1;
      }
    }

    /** Removing while standing on the same slot still visits every entry. */
    method ReleaseAllInterrupts(sd: int)
      requires Valid()
      modifies this`entries, slots
      ensures Valid() && entries == Without(old(entries), sd)
    {
      ghost var was := entries;
      var ptr := 0;
      while ptr < slots.Length && slots[ptr].data != 0
        invariant Valid() && ptr <= slots.Length
        invariant Without(was, sd) == Without(entries, sd)
        invariant NoneOf(entries, ptr, sd)
      {
        while slots[ptr].data == sd
          invariant Valid() && (slots[ptr].data == sd ==> ptr < |entries|)
          invariant Without(was, sd) == Without(entries, sd)
          invariant NoneOf(entries, ptr, sd)
          decreases |entries|
        {
          RemovedWasDropped(entries, ptr, sd);
          RemoveEntry(ptr);
        }
        assert ptr < |entries| ==> slots[ptr] == entries[ptr];
        assert NoneOf(entries, ptr + 1, sd);
        ptr := ptr + 1;
      }
      NothingToDrop(entries, sd);
    }

    /** For each crate, the mask of its registered lines, cut to eight bits. */
    method ListRegisteredInterrupts(irqs: array<u8>)
      requires Valid() && irqs.Length == 16
      modifies irqs
      ensures forall c | 0 <= c < 16 :: BitSet(irqs[c]) == Lines(entries, c) * LOW8
      ensures forall c, k: nat | 0 <= c < 16 :: k in BitSet(irqs[c]) <==> k < 8 && NamedBySome(entries, c, k)
    {
      forall c | 0 <= c < 16 { irqs[c] := 0; }
      EmptyMask(0);
      var ptr := 0;
      while ptr < slots.Length && slots[ptr].data != 0
        invariant ptr <= |entries|
        invariant forall c | 0 <= c < 16 :: BitSet(irqs[c]) == Lines(entries[..ptr], c) * LOW8
      {
        var crate := 0;
        while crate < 16
          invariant 0 <= crate <= 16
          invariant forall c | 0 <= c < crate :: BitSet(irqs[c]) == Lines(entries[..ptr + 1], c) * LOW8
          invariant forall c | crate <= c < 16 :: BitSet(irqs[c]) == Lines(entries[..ptr], c) * LOW8
        {
          TestBit(slots[ptr].selector.crate, crate);
          assert entries[..ptr + 1] == entries[..ptr] + [entries[ptr]];
          LinesOfAppend(entries[..ptr], entries[ptr], crate);
          if And(slots[ptr].selector.crate, Bit(crate)) != 0 {
            irqs[crate] := AddLines(irqs[crate], slots[ptr].selector.irq);
          }
          crate := crate + 1;
        }
        ptr := ptr + 1;
      }
      assert entries[..ptr] == entries;
      forall c: nat, k: nat | c < 16
        ensures k in BitSet(irqs[c]) <==> k < 8 && NamedBySome(entries, c, k)
      {
        LinesAreNamed(entries, c, k);
      }
    }
  }

  /** None of the first `n` entries belongs to `sd`. */
  ghost predicate NoneOf(t: seq<Entry>, n: nat, sd: int) {
    forall j | 0 <= j < n && j < |t| :: t[j].data != sd
  }

  lemma {:induction false} RemovedWasDropped(t: seq<Entry>, i: nat, sd: int)
    requires i < |t| && t[i].data == sd
    ensures Without(RemoveAt(t, i), sd) == Without(t, sd)
  {
    if i == 0 {
      assert RemoveAt(t, 0) == t[1..];
    } else {
      assert RemoveAt(t, i)[1..] == RemoveAt(t[1..], i - 1);
      RemovedWasDropped(t[1..], i - 1, sd);
    }
  }

  lemma {:induction false} NothingToDrop(t: seq<Entry>, sd: int)
    requires NoneOf(t, |t|, sd)
    ensures Without(t, sd) == t
  {
    if |t| > 0 { NothingToDrop(t[1..], sd); }
  }

  /** Storing the union of two masks in a byte keeps the positions below 8. */
  function AddLines(mask: u8, irq: u16): (r: u8)
    ensures BitSet(r) == (BitSet(mask) + BitSet(irq)) * LOW8
  {
    MaskOperators(mask, irq);
    MaskOperators(Or(mask, irq), 0xFF);
    ConstantMasks();
    Widths();
    AndIsBounded(Or(mask, irq), 0xFF);
    And(Or(mask, irq), 0xFF)
  }

  lemma {:induction false} AndIsBounded(a: nat, b: nat)
    ensures And(a, b) <= b
  {
    if a != 0 { AndIsBounded(a / 2, b / 2); }
  }
}
