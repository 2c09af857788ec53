/** The interrupt selectors that clients register and the dispatcher matches. */
module Selectors {
  import opened Bits

  /** `crate` and `irq` are bitmasks, `vector` is a value, `payload` belongs to the client. */
  datatype Selector = Selector(crate: u16, irq: u16, vector: u32, payload: u32)

  const ANYIRQ: u16 := 0x00FE
  const ANYVECTOR: u32 := 0xFFFF_FFFF

  function Crates(s: Selector): set<nat> { BitSet(s.crate) }

  function Irqs(s: Selector): set<nat> { BitSet(s.irq) }

  /**
   * An entry covers a request when it names every crate and line of the request and either
   * takes any vector or names the very vector of the request.
   */
  predicate Covers(entry: Selector, req: Selector) {
    && Crates(req) <= Crates(entry)
    && Irqs(req) <= Irqs(entry)
    && (entry.vector == ANYVECTOR || entry.vector == req.vector)
  }

  /** The field-wise match test: every bit of the request is set in the entry. */
  predicate HashMatch(sel: Selector, req: Selector) {
    && And(sel.crate, req.crate) == req.crate
    && And(sel.irq, req.irq) == req.irq
    && And(sel.vector, req.vector) == req.vector
  }

  /** The field-wise equality test: the payload is not part of the key. */
  predicate HashEq(sel: Selector, req: Selector) {
    && sel.crate == req.crate
    && sel.irq == req.irq
    && sel.vector == req.vector
  }

  // ---------------------------------------------------------------- Covering

  /** Covering is a partial order: mutual covering is equality of the key. */
  lemma CoversIsAntisymmetric(a: Selector, b: Selector)
    ensures Covers(a, b) && Covers(b, a) <==> HashEq(a, b)
  {
    if Covers(a, b) && Covers(b, a) {
      SameSetSameMask(a.crate, b.crate);
      SameSetSameMask(a.irq, b.irq);
    }
  }

  lemma CoversIsTransitive(a: Selector, b: Selector, c: Selector)
    requires Covers(a, b) && Covers(b, c)
    ensures Covers(a, c)
  {
  }

  /**
   * The test the table applies decides covering: the bitmask filter, which also compares the
   * bits of the vectors, never drops an entry that covers the request.
   */
  lemma MatchTestDecidesCovers(entry: Selector, req: Selector)
    ensures HashMatch(entry, req) && (entry.vector == ANYVECTOR || entry.vector == req.vector) <==>
            Covers(entry, req)
  {
    SupersetTest(entry.crate, req.crate);
    SupersetTest(entry.irq, req.irq);
    SupersetTest(entry.vector, req.vector);
    if entry.vector == ANYVECTOR {
      Widths();
      forall n: nat | n < 32 ensures HasBit(ANYVECTOR, n) { AllOnes(32, n); }
    }
  }

  // ---------------------------------------------------------------- The one-word tests

  /** Two fields side by side in one word. */
  function Concat(low: nat, high: nat, w: nat): nat {
    low + Shl(high, w)
  }

  /** The eight bytes that hold crate, irq and vector, read as one little-endian word. */
  function Packed(s: Selector): nat {
    Concat(s.crate, Concat(s.irq, s.vector, 16), 16)
  }

  predicate HashMatch64(sel: Selector, req: Selector) {
    And(Packed(sel), Packed(req)) == Packed(req)
  }

  predicate HashEq64(sel: Selector, req: Selector) {
    Packed(sel) == Packed(req)
  }

  lemma {:induction false} ConcatIsInjective(low: nat, high: nat, low': nat, high': nat, w: nat)
    requires low < Bit(w) && low' < Bit(w)
    requires Concat(low, high, w) == Concat(low', high', w)
    ensures low == low' && high == high'
  {
    if w > 0 { ConcatIsInjective(low / 2, high, low' / 2, high', w - 1); }
  }

  lemma ConcatHalves(low: nat, high: nat, w: nat)
    requires w > 0
    ensures Concat(low, high, w) % 2 == low % 2 && Concat(low, high, w) / 2 == Concat(low / 2, high, w - 1)
  {
  }

  lemma {:induction false} AndOfConcat(low: nat, high: nat, low': nat, high': nat, w: nat)
    requires low < Bit(w) && low' < Bit(w)
    ensures And(Concat(low, high, w), Concat(low', high', w)) == Concat(And(low, low'), And(high, high'), w)
  {
    if w > 0 {
      AndStep(low, low');
      AndStep(Concat(low, high, w), Concat(low', high', w));
      ConcatHalves(low, high, w);
      ConcatHalves(low', high', w);
      ConcatHalves(And(low, low'), And(high, high'), w);
      AndOfConcat(low / 2, high, low' / 2, high', w - 1);
    }
  }

  /** The one-word tests decide exactly what the field-wise tests decide. */
  lemma PackedTestsAgree(sel: Selector, req: Selector)
    ensures HashEq64(sel, req) <==> HashEq(sel, req)
    ensures HashMatch64(sel, req) <==> HashMatch(sel, req)
  {
    Widths();
    var sr, rr := Concat(sel.irq, sel.vector, 16), Concat(req.irq, req.vector, 16);
    if HashEq64(sel, req) {
      ConcatIsInjective(sel.crate, sr, req.crate, rr, 16);
      ConcatIsInjective(sel.irq, sel.vector, req.irq, req.vector, 16);
    }
    AndOfConcat(sel.crate, sr, req.crate, rr, 16);
    AndOfConcat(sel.irq, sel.vector, req.irq, req.vector, 16);
    if HashMatch64(sel, req) {
      ResultsFit(sel.crate, req.crate, 16);
      ResultsFit(sel.irq, req.irq, 16);
      ConcatIsInjective(And(sel.crate, req.crate), And(sr, rr), req.crate, rr, 16);
      ConcatIsInjective(And(sel.irq, req.irq), And(sel.vector, req.vector), req.irq, req.vector, 16);
    }
  }
}
