/** The vector table as a plain sequence of entries, and what dispatching from it means. */
module VectorTableSpec {
  import opened Bits
  import opened ErrorNumbers
  import opened Selectors

  datatype Entry = Entry(selector: Selector, data: int)
  datatype Option<T> = None | Some(value: T)

  /** How many slots the table grows by. */
  const INCR := 32

  /** The positions that an eight-bit mask can hold. */
  const LOW8: set<nat> := {0, 1, 2, 3, 4, 5, 6, 7}

  // ---------------------------------------------------------------- Looking up

  /** The position of the first entry that covers the request, or the length of the table. */
  function FirstCover(t: seq<Entry>, req: Selector): (i: nat)
    ensures i <= |t|
    ensures i < |t| ==> Covers(t[i].selector, req)
    ensures forall j | 0 <= j < i :: !Covers(t[j].selector, req)
  {
    if |t| == 0 || Covers(t[0].selector, req) then 0 else 1 + FirstCover(t[1..], req)
  }

  /** The entry that answers a request. */
  function Answer(t: seq<Entry>, req: Selector): Option<Entry> {
    var i := FirstCover(t, req);
    if i < |t| then Some(t[i]) else None
  }

  /** Entry `i` is the first that covers the request. */
  predicate IsFirstCover(t: seq<Entry>, req: Selector, i: nat) {
    i < |t| && Covers(t[i].selector, req) && forall j | 0 <= j < i :: !Covers(t[j].selector, req)
  }

  /** The answer is the first covering entry; there is one exactly when some entry covers the request. */
  lemma AnswerIsFirstCover(t: seq<Entry>, req: Selector)
    ensures Answer(t, req).Some? <==> Taken(t, req)
    ensures forall i: nat | IsFirstCover(t, req, i) :: Answer(t, req) == Some(t[i])
    ensures Taken(t, req) ==> exists i: nat :: IsFirstCover(t, req, i)
  {
    var f := FirstCover(t, req);
    forall i: nat | IsFirstCover(t, req, i) ensures i == f {}
    if f < |t| { assert IsFirstCover(t, req, f); }
  }

  /** Requests with the same key have the same answer. */
  lemma {:induction false} AnswerDependsOnKey(t: seq<Entry>, a: Selector, b: Selector)
    requires HashEq(a, b)
    ensures FirstCover(t, a) == FirstCover(t, b) && Answer(t, a) == Answer(t, b)
  {
    if |t| > 0 { AnswerDependsOnKey(t[1..], a, b); }
  }

  /** The position of the first entry with exactly the key of the request. */
  function FirstEqual(t: seq<Entry>, req: Selector): (i: nat)
    ensures i <= |t|
    ensures i < |t| ==> HashEq(t[i].selector, req)
    ensures forall j | 0 <= j < i :: !HashEq(t[j].selector, req)
  {
    if |t| == 0 || HashEq(t[0].selector, req) then 0 else 1 + FirstEqual(t[1..], req)
  }

  // ---------------------------------------------------------------- Changing the table

  /** At least one crate, at least one line, and no line but IRQ1 to IRQ7. */
  predicate Legal(req: Selector) {
    Crates(req) != {} && Irqs(req) != {} && Irqs(req) <= {1, 2, 3, 4, 5, 6, 7}
  }

  /** `canAppend` says that a slot is free or that memory for more of them can be had. */
  function RegisterCode(t: seq<Entry>, sd: int, req: Selector, canAppend: bool): int {
    if sd == 0 || !Legal(req) then -EINVAL
    else if FirstCover(t, req) < |t| then -EADDRINUSE
    else if !canAppend then -ENOMEM
    else 0
  }

  /** Some entry covers the request. */
  predicate Taken(t: seq<Entry>, req: Selector) {
    exists i :: 0 <= i < |t| && Covers(t[i].selector, req)
  }

  /**
   * When a registration is granted, and why it is refused: no owner or an illegal selector, a
   * selector that some entry covers, or no room; the first that applies.
   */
  lemma RegisterOutcome(t: seq<Entry>, sd: int, req: Selector, canAppend: bool)
    ensures var ret := RegisterCode(t, sd, req, canAppend);
            && (ret == 0 <==> sd != 0 && Legal(req) && !Taken(t, req) && canAppend)
            && (ret == -EINVAL <==> sd == 0 || !Legal(req))
            && (ret == -EADDRINUSE <==> sd != 0 && Legal(req) && Taken(t, req))
            && (ret == -ENOMEM <==> sd != 0 && Legal(req) && !Taken(t, req) && !canAppend)
            && ret in {0, -EINVAL, -EADDRINUSE, -ENOMEM}
            && Register(t, sd, req, canAppend) == if ret == 0 then t + [Entry(req, sd)] else t
  {
    var i := FirstCover(t, req);
    assert i < |t| ==> Covers(t[i].selector, req);
  }

  function Register(t: seq<Entry>, sd: int, req: Selector, canAppend: bool): seq<Entry> {
    if RegisterCode(t, sd, req, canAppend) == 0 then t + [Entry(req, sd)] else t
  }

  function ReleaseCode(t: seq<Entry>, sd: int, req: Selector): int {
    var i := FirstEqual(t, req);
    if i < |t| && t[i].data == sd then 0 else -EINVAL
  }

  function RemoveAt(t: seq<Entry>, i: nat): (r: seq<Entry>)
    requires i < |t|
    ensures |r| == |t| - 1
    ensures forall j | 0 <= j < i :: r[j] == t[j]
    ensures forall j | i <= j < |r| :: r[j] == t[j + 1]
  {
    t[..i] + t[i + 1..]
  }

  function Release(t: seq<Entry>, sd: int, req: Selector): seq<Entry> {
    if ReleaseCode(t, sd, req) == 0 then RemoveAt(t, FirstEqual(t, req)) else t
  }

  /** Entry `i` is the first with the key of the request. */
  predicate IsFirstEqual(t: seq<Entry>, req: Selector, i: nat) {
    i < |t| && HashEq(t[i].selector, req) && forall j | 0 <= j < i :: !HashEq(t[j].selector, req)
  }

  /** A release is granted exactly to the owner of the first entry with the key, which goes; no other goes. */
  lemma ReleaseOutcome(t: seq<Entry>, sd: int, req: Selector)
    ensures var ret, r := ReleaseCode(t, sd, req), Release(t, sd, req);
            && (ret == 0 <==> exists i: nat :: IsFirstEqual(t, req, i) && t[i].data == sd)
            && (forall i: nat | IsFirstEqual(t, req, i) && t[i].data == sd :: r == t[..i] + t[i + 1..])
            && (ret != 0 ==> ret == -EINVAL && r == t)
  {
    var f := FirstEqual(t, req);
    forall i: nat | IsFirstEqual(t, req, i) ensures i == f {}
    if f < |t| { assert IsFirstEqual(t, req, f); }
  }

  /** The entries that do not belong to `sd`, in their order. */
  function Without(t: seq<Entry>, sd: int): (r: seq<Entry>)
    ensures forall e :: e in r <==> e in t && e.data != sd
    ensures |r| + Owned(t, sd) == |t|
  {
    if |t| == 0 then [] else (if t[0].data == sd then [] else [t[0]]) + Without(t[1..], sd)
  }

  /**
   * Dropping an owner decides entry by entry and keeps what is left in place: it distributes over
   * putting tables in a row, and is given on tables of one entry.
   */
  lemma {:induction false} WithoutOfConcat(a: seq<Entry>, b: seq<Entry>, sd: int)
    ensures Without(a + b, sd) == Without(a, sd) + Without(b, sd)
    ensures forall e {:trigger Without([e], sd)} :: Without([e], sd) == if e.data == sd then [] else [e]
  {
    if |a| == 0 {
      assert a + b == b;
    } else {
      assert (a + b)[1..] == a[1..] + b;
      WithoutOfConcat(a[1..], b, sd);
    }
  }

  /** How many entries belong to `sd`. */
  function Owned(t: seq<Entry>, sd: int): nat {
    if |t| == 0 then 0 else (if t[0].data == sd then 1 else 0) + Owned(t[1..], sd)
  }

  // ---------------------------------------------------------------- Registered lines

  ghost predicate AllLegal(t: seq<Entry>) {
    forall i | 0 <= i < |t| :: Legal(t[i].selector) && t[i].data != 0
  }

  predicate Names(e: Entry, c: nat, k: nat) {
    c in Crates(e.selector) && k in Irqs(e.selector)
  }

  /** The lines that some entry names for crate `c`. */
  function Lines(t: seq<Entry>, c: nat): set<nat> {
    set i: nat, k: nat | i < |t| && k < 32 && Names(t[i], c, k) :: k
  }

  /** The lines that some entry names for any crate at all. */
  function AllLines(t: seq<Entry>): set<nat> {
    set i: nat, k: nat | i < |t| && k < 32 && k in Irqs(t[i].selector) :: k
  }

  /** A line is registered for a crate if and only if some entry names both. */
  lemma LinesAreNamed(t: seq<Entry>, c: nat, k: nat)
    ensures k in Lines(t, c) <==> NamedBySome(t, c, k)
    ensures k in AllLines(t) <==> exists i :: 0 <= i < |t| && k in BitSet(t[i].selector.irq)
  {
    if NamedBySome(t, c, k) {
      var i :| 0 <= i < |t| && c in BitSet(t[i].selector.crate) && k in BitSet(t[i].selector.irq);
      assert Names(t[i], c, k);
    }
    if i :| 0 <= i < |t| && k in BitSet(t[i].selector.irq) {
      assert k in Irqs(t[i].selector);
    }
  }

  predicate NamedBySome(t: seq<Entry>, c: nat, k: nat) {
    exists i :: 0 <= i < |t| && c in BitSet(t[i].selector.crate) && k in BitSet(t[i].selector.irq)
  }

  /** The last entry adds its own lines for the crates it names. */
  lemma LinesOfAppend(t: seq<Entry>, e: Entry, c: nat)
    ensures Lines(t + [e], c) == Lines(t, c) + if c in Crates(e.selector) then Irqs(e.selector) else {}
    ensures AllLines(t + [e]) == AllLines(t) + Irqs(e.selector)
  {
    var u := t + [e];
    assert u[|t|] == e;
    assert forall i | 0 <= i < |t| :: u[i] == t[i];
    forall k | k in Lines(t, c) + if c in Crates(e.selector) then Irqs(e.selector) else {}
      ensures k in Lines(u, c)
    {
      if k in Lines(t, c) {
        var i: nat :| i < |t| && Names(t[i], c, k);
        assert Names(u[i], c, k);
      } else {
        assert Names(u[|t|], c, k);
      }
    }
    forall k | k in AllLines(t) + Irqs(e.selector)
      ensures k in AllLines(u)
    {
      if k in AllLines(t) {
        var i: nat :| i < |t| && k in Irqs(t[i].selector);
        assert k in Irqs(u[i].selector);
      } else {
        assert k in Irqs(u[|t|].selector);
      }
    }
  }

  /** What is registered for a crate is registered; a legal table registers only IRQ1 to IRQ7. */
  lemma LinesAreLegal(t: seq<Entry>, c: nat)
    ensures Lines(t, c) <= AllLines(t)
    ensures AllLegal(t) ==> AllLines(t) <= {1, 2, 3, 4, 5, 6, 7}
  {
  }

  // ---------------------------------------------------------------- Order

  /** No earlier entry covers a later one. */
  ghost predicate NoEarlierCovers(t: seq<Entry>) {
    forall i, j | 0 <= i < j < |t| :: !Covers(t[i].selector, t[j].selector)
  }

  /** An exact key occurs once, so the first exact match is the only one. */
  lemma KeysAreUnique(t: seq<Entry>, i: nat, j: nat)
    requires NoEarlierCovers(t) && i < |t| && j < |t|
    requires HashEq(t[i].selector, t[j].selector)
    ensures i == j
  {
    CoversIsAntisymmetric(t[i].selector, t[j].selector);
  }

  lemma RegisterKeepsOrder(t: seq<Entry>, sd: int, req: Selector, canAppend: bool)
    requires NoEarlierCovers(t)
    ensures NoEarlierCovers(Register(t, sd, req, canAppend))
  {
  }

  lemma RemoveKeepsOrder(t: seq<Entry>, i: nat)
    requires NoEarlierCovers(t) && i < |t|
    ensures NoEarlierCovers(RemoveAt(t, i))
  {
    var r := RemoveAt(t, i);
    forall a, b | 0 <= a < b < |r|
      ensures !Covers(r[a].selector, r[b].selector)
    {
      var a', b' := if a < i then a else a + 1, if b < i then b else b + 1;
      assert r[a] == t[a'] && r[b] == t[b'];
    }
  }

  lemma {:induction false} WithoutKeepsOrder(t: seq<Entry>, sd: int)
    requires NoEarlierCovers(t)
    ensures NoEarlierCovers(Without(t, sd))
  {
    if |t| > 0 {
      var rest := Without(t[1..], sd);
      WithoutKeepsOrder(t[1..], sd);
      forall j | 0 <= j < |rest|
        ensures !Covers(t[0].selector, rest[j].selector)
      {
        assert rest[j] in t[1..];
      }
    }
  }

  // ---------------------------------------------------------------- Stability of dispatch

  /** Every entry answers its own selector: a registration is found where it was put. */
  lemma EntryAnswersItself(t: seq<Entry>, i: nat)
    requires NoEarlierCovers(t) && i < |t|
    ensures FirstCover(t, t[i].selector) == i
    ensures Answer(t, t[i].selector) == Some(t[i])
  {
  }

  /** The answer from two tables in a row is the first one's, or else the second one's. */
  lemma {:induction false} AnswerOfConcat(a: seq<Entry>, b: seq<Entry>, req: Selector)
    ensures Answer(a + b, req) == if Answer(a, req).Some? then Answer(a, req) else Answer(b, req)
  {
    if |a| == 0 {
      assert a + b == b;
    } else {
      assert (a + b)[1..] == a[1..] + b;
      AnswerOfConcat(a[1..], b, req);
    }
  }

  /** Releasing what has just been registered restores the table. */
  lemma ReleaseUndoesRegister(t: seq<Entry>, sd: int, req: Selector, canAppend: bool)
    requires RegisterCode(t, sd, req, canAppend) == 0
    ensures ReleaseCode(Register(t, sd, req, canAppend), sd, req) == 0
    ensures Release(Register(t, sd, req, canAppend), sd, req) == t
  {
    var u := Register(t, sd, req, canAppend);
    assert u[|t|] == Entry(req, sd);
    forall j | 0 <= j < |t| ensures !HashEq(u[j].selector, req) { CoversIsAntisymmetric(t[j].selector, req); }
    assert FirstEqual(u, req) == |t|;
  }

  /** Registering changes an answer exactly when there was none and the new entry covers the request. */
  lemma RegisterChangesAnswer(t: seq<Entry>, e: Entry, req: Selector)
    ensures Answer(t + [e], req) ==
            if Answer(t, req).None? && Covers(e.selector, req) then Some(e) else Answer(t, req)
  {
    AnswerOfConcat(t, [e], req);
  }

  lemma AnswerIsAnEntry(t: seq<Entry>, req: Selector)
    ensures Answer(t, req).Some? ==> Answer(t, req).value in t
  {
  }

  /** Removing an entry changes an answer exactly when that entry was the answer. */
  lemma RemoveChangesAnswer(t: seq<Entry>, i: nat, req: Selector)
    requires NoEarlierCovers(t) && i < |t|
    ensures Answer(RemoveAt(t, i), req) == Answer(t, req) <==> FirstCover(t, req) != i
  {
    var front, e, back := t[..i], t[i], t[i + 1..];
    AnswerOfConcat(front, back, req);
    AnswerOfConcat(front, [e], req);
    AnswerOfConcat(front + [e], back, req);
    assert t == front + [e] + back;
    assert FirstCover(t, req) == i <==> Answer(front, req).None? && Covers(e.selector, req);
    AnswerIsAnEntry(back, req);
    assert e !in back by {
      forall j | 0 <= j < |back| ensures back[j] != e { assert back[j] == t[i + 1 + j]; }
    }
  }

  /** Dropping an owner changes an answer exactly when that owner held the answer. */
  lemma {:induction false} WithoutChangesAnswer(t: seq<Entry>, sd: int, req: Selector)
    ensures Answer(Without(t, sd), req) == Answer(t, req) <==>
            !(Answer(t, req).Some? && Answer(t, req).value.data == sd)
  {
    if |t| > 0 {
      WithoutChangesAnswer(t[1..], sd, req);
      AnswerOfConcat([t[0]], t[1..], req);
      AnswerOfConcat(if t[0].data == sd then [] else [t[0]], Without(t[1..], sd), req);
      assert t == [t[0]] + t[1..];
      AnswerIsAnEntry(Without(t[1..], sd), req);
    }
  }
}
