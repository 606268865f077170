/** Resources reserved for single cycles: a bit vector over the cycles from now on that is shifted lazily. */
module ComplexResources {
  import opened Words
  import opened WordArrays

  // ----- the vector as a whole -----

  /** The bit vector and the cycle its position 0 stands for. */
  datatype State = State(last: nat, bits: Bits)

  /** cycles = now - last in uint64_t */
  function Gap(last: nat, now: nat): nat {
    (now - last) % 0x1_0000_0000_0000_0000
  }

  /** What the shift by g cycles does to a vector of n bits for the given depth. */
  function Shifted(x: Bits, g: nat, depth: nat, n: nat): Bits {
    if g > depth then {} else Moved(x, g / 64, g % 64, n)
  }

  /** The shift is right: every bit moves down by g cycles. */
  predicate ShiftsRight(x: Bits, g: nat, n: nat) {
    Shifted(x, g, n, n) == Shr(x, g)
  }

  /** For a depth that fills whole words, the shift is right on all vectors exactly when the gap is shorter
      than a word or at least the depth. */
  lemma {:induction false} ShiftIff(g: nat, n: nat)
    requires n % 64 == 0
    ensures (forall x: Bits | Fits(x, n) :: ShiftsRight(x, g, n)) <==> g < 64 || g >= n
  {
    if g < 64 || g >= n {
      forall x: Bits | Fits(x, n)
        ensures ShiftsRight(x, g, n)
      {
        GoodShift(x, g, n);
      }
    } else {
      var x: Bits := {g};
      assert Fits(x, n) && 0 in Shr(x, g);
      MovedBit(x, g / 64, g % 64, n, 0);
      assert !ShiftsRight(x, g, n);
    }
  }

  lemma {:induction false} GoodShift(x: Bits, g: nat, n: nat)
    requires Fits(x, n) && n % 64 == 0 && (g < 64 || g >= n)
    ensures ShiftsRight(x, g, n)
  {
    if g <= n {
      forall q: nat
        ensures q in Shifted(x, g, n, n) <==> q in Shr(x, g)
      {
        MovedBit(x, g / 64, g % 64, n, q);
      }
    } else {
      assert Shr(x, g) == {};
    }
  }

  /** Advancing the vector to the current cycle. */
  function Advanced(s: State, now: nat, depth: nat, n: nat): State {
    State(now, Shifted(s.bits, Gap(s.last, now), depth, n))
  }

  /** Every operation first advances the vector if time has passed. */
  function Current(s: State, now: nat, depth: nat, n: nat): State {
    if now != s.last then Advanced(s, now, depth, n) else s
  }

  // ----- what the vector stands for -----

  /** The bit vector of n bits says which cycles from the last one on are reserved, and none is beyond. */
  ghost predicate Tracks(s: State, reserved: set<nat>, n: nat) {
    Fits(s.bits, n) && forall i: nat :: BitRight(s, reserved, i)
  }

  ghost predicate BitRight(s: State, reserved: set<nat>, i: nat) {
    i in s.bits <==> s.last + i in reserved
  }

  /** Time moves on by less than a word, or by at least the depth. */
  predicate FineStep(last: nat, now: nat, n: nat) {
    last <= now < 0x1_0000_0000_0000_0000 && (now - last < 64 || now - last >= n)
  }

  lemma {:induction false} ShrTwice(x: Bits, a: nat, b: nat)
    ensures Shr(Shr(x, a), b) == Shr(x, a + b)
  {
    forall i: nat
      ensures i in Shr(Shr(x, a), b) <==> i in Shr(x, a + b)
    {
      assert i + b + a == i + (a + b);
    }
  }

  lemma {:induction false} ShrNothing(x: Bits)
    ensures Shr(x, 0) == x
  {
    forall i: nat ensures i in Shr(x, 0) <==> i in x { assert i + 0 == i; }
  }

  lemma {:induction false} ShrFits(x: Bits, a: nat, n: nat)
    requires Fits(x, n)
    ensures Fits(Shr(x, a), n)
  {
    forall i | i in Shr(x, a) ensures i < n { assert i + a in x; }
  }

  lemma {:induction false} GapIs(last: nat, g: nat)
    requires last + g < 0x1_0000_0000_0000_0000
    ensures Gap(last, last + g) == g
  {
  }

  lemma {:induction false} CurrentShift(s: State, g: nat, n: nat)
    requires Fits(s.bits, n) && n % 64 == 0 && FineStep(s.last, s.last + g, n)
    ensures Current(s, s.last + g, n, n) == State(s.last + g, Shr(s.bits, g))
  {
    if g == 0 {
      ShrNothing(s.bits);
    } else {
      GapIs(s.last, g);
      GoodShift(s.bits, g, n);
    }
  }

  /** The lazy shift keeps the reserved cycles; those that have passed no longer matter. */
  lemma {:induction false} AdvanceTracks(s: State, reserved: set<nat>, now: nat, n: nat)
    requires Tracks(s, reserved, n) && n % 64 == 0 && FineStep(s.last, now, n)
    ensures Tracks(Current(s, now, n, n), reserved, n)
    ensures Current(s, now, n, n).last == now
  {
    CurrentShift(s, now - s.last, n);
    ShiftedTracks(s, reserved, now - s.last, n);
  }

  lemma {:induction false} ShiftedTracks(s: State, reserved: set<nat>, g: nat, n: nat)
    requires Tracks(s, reserved, n)
    ensures Tracks(State(s.last + g, Shr(s.bits, g)), reserved, n)
  {
    var t := State(s.last + g, Shr(s.bits, g));
    ShrFits(s.bits, g, n);
    forall i: nat
      ensures BitRight(t, reserved, i)
    {
      assert BitRight(s, reserved, i + g);
    }
  }

  /** One cycle at a time. */
  function Ticks(s: State, g: nat, n: nat): State {
    if g == 0 then s else var t := Ticks(s, g - 1, n); Current(t, t.last + 1, n, n)
  }

  lemma {:induction false} TicksShift(s: State, g: nat, n: nat)
    requires Fits(s.bits, n) && n % 64 == 0 && s.last + g < 0x1_0000_0000_0000_0000
    ensures Ticks(s, g, n) == State(s.last + g, Shr(s.bits, g))
  {
    if g == 0 {
      ShrNothing(s.bits);
    } else {
      TicksShift(s, g - 1, n);
      ShrTwice(s.bits, g - 1, 1);
      ShrFits(s.bits, g - 1, n);
      CurrentShift(Ticks(s, g - 1, n), 1, n);
    }
  }

  /** Shifting lazily is the same as shifting once every cycle. */
  lemma {:induction false} LazyIsEager(s: State, g: nat, n: nat)
    requires Fits(s.bits, n) && n % 64 == 0 && FineStep(s.last, s.last + g, n)
    ensures Current(s, s.last + g, n, n) == Ticks(s, g, n)
  {
    TicksShift(s, g, n);
    CurrentShift(s, g, n);
  }

  // ----- reserving and releasing -----

  function WordCount(depth: nat): nat {
    (depth + 63) / 64
  }

  /** The bits that can be reserved: when the depth does not fill the last word, the high bits of that word
      are kept instead of the low ones. */
  function Reservable(depth: nat): Bits {
    Low(64 * (depth / 64)) + Shl(Shl64(Ones(), 64 - depth % 64), 64 * (depth / 64))
  }

  /** Exactly the cycles below the depth can be reserved if and only if the depth fills whole words. */
  lemma {:induction false} ReservableIff(depth: nat)
    ensures Reservable(depth) == Low(depth) <==> depth % 64 == 0
  {
    if depth % 64 != 0 {
      var i := 64 * (depth / 64);
      assert i in Low(depth) && i !in Reservable(depth);
    }
  }

  datatype Operation = IsFree(wanted: seq<Word>) | Acquire(taken: seq<Word>) | Release(returned: seq<Word>)

  /** The state after an operation in the given cycle. */
  function After(s: State, now: nat, op: Operation, depth: nat): State {
    var t := Current(s, now, depth, 64 * WordCount(depth));
    match op
    case IsFree(_) => t
    case Acquire(span) => t.(bits := t.bits + Flat(span) * Reservable(depth))
    case Release(span) => t.(bits := t.bits - Flat(span) * Reservable(depth))
  }

  /** The answer of an operation. */
  function Answer(s: State, now: nat, op: Operation, depth: nat): bool {
    op.IsFree? ==> Flat(op.wanted) * Current(s, now, depth, 64 * WordCount(depth)).bits == {}
  }

  /** Bit q of the vector after it has been advanced: for a gap above the depth there is none; otherwise whole words have
      moved up, and then all bits down by less than a word. A clock that has gone back counts as a gap modulo 2^64. */
  predicate Remains(s: State, now: nat, depth: nat, q: nat) {
    if now == s.last then q in s.bits
    else
      var gap := if now > s.last then now - s.last else now + 0x1_0000_0000_0000_0000 - s.last;
      && 0 <= gap <= depth && 64 * (gap / 64) <= q
      && q - 64 * (gap / 64) + gap % 64 in s.bits && q + gap % 64 < 64 * ((depth + 63) / 64)
  }

  /** Bit q of a span. */
  predicate InSpan(span: seq<Word>, q: nat) {
    q / 64 < |span| && q % 64 in span[q / 64]
  }

  /** Bit q can be reserved: all bits of the whole words of the depth, and the high ones of the word after them. */
  predicate CanReserve(depth: nat, q: nat) {
    q / 64 < depth / 64 || (q / 64 == depth / 64 && q % 64 >= 64 - depth % 64)
  }

  lemma {:induction false} GapOf(last: nat, now: nat) returns (gap: nat)
    requires last < 0x1_0000_0000_0000_0000 && now < 0x1_0000_0000_0000_0000
    ensures gap == Gap(last, now) == if now >= last then now - last else now + 0x1_0000_0000_0000_0000 - last
  {
    gap := Gap(last, now);
  }

  lemma {:induction false} RemainsIff(s: State, now: nat, depth: nat, q: nat)
    requires s.last < 0x1_0000_0000_0000_0000 && now < 0x1_0000_0000_0000_0000
    ensures q in Current(s, now, depth, 64 * WordCount(depth)).bits <==> Remains(s, now, depth, q)
  {
    var gap := GapOf(s.last, now);
    if now != s.last { MovedBit(s.bits, gap / 64, gap % 64, 64 * WordCount(depth), q); }
  }

  lemma {:induction false} SpanBit(span: seq<Word>, q: nat)
    ensures q in Flat(span) <==> InSpan(span, q)
  {
    FlatAt(span, q / 64, q % 64);
    assert 64 * (q / 64) + q % 64 == q;
  }

  lemma {:induction false} ReservableAt(depth: nat, j: nat, p: nat)
    requires p < 64
    ensures At(Reservable(depth), j, p) <==> j < depth / 64 || (j == depth / 64 && p >= 64 - depth % 64)
  {
  }

  lemma {:induction false} ReservableBit(depth: nat, q: nat)
    ensures q in Reservable(depth) <==> CanReserve(depth, q)
  {
    ReservableAt(depth, q / 64, q % 64);
    assert 64 * (q / 64) + q % 64 == q;
  }

  /** What an operation does to each bit of the vector, for any depth and in any cycle. */
  lemma {:induction false} OperationBits(s: State, now: nat, op: Operation, depth: nat, q: nat)
    requires s.last < 0x1_0000_0000_0000_0000 && now < 0x1_0000_0000_0000_0000
    ensures After(s, now, op, depth).last == now
    ensures q in After(s, now, op, depth).bits <==>
            match op
            case IsFree(_) => Remains(s, now, depth, q)
            case Acquire(span) => Remains(s, now, depth, q) || (InSpan(span, q) && CanReserve(depth, q))
            case Release(span) => Remains(s, now, depth, q) && !(InSpan(span, q) && CanReserve(depth, q))
  {
    RemainsIff(s, now, depth, q);
    ReservableBit(depth, q);
    if op.Acquire? { SpanBit(op.taken, q); }
    if op.Release? { SpanBit(op.returned, q); }
  }

  /** A span is free exactly when none of its bits remains, whether it can be reserved or not. */
  lemma {:induction false} AnswerBits(s: State, now: nat, span: seq<Word>, depth: nat)
    requires s.last < 0x1_0000_0000_0000_0000 && now < 0x1_0000_0000_0000_0000
    ensures Answer(s, now, IsFree(span), depth) <==> forall q: nat :: !(InSpan(span, q) && Remains(s, now, depth, q))
  {
    var both := Flat(span) * Current(s, now, depth, 64 * WordCount(depth)).bits;
    forall q: nat
      ensures q in both <==> InSpan(span, q) && Remains(s, now, depth, q)
    {
      SpanBit(span, q);
      RemainsIff(s, now, depth, q);
    }
    if both != {} { var q :| q in both; assert InSpan(span, q) && Remains(s, now, depth, q); }
  }

  /** The cycles a span asks for, counted from now; those beyond the depth are ignored. */
  function Cycles(span: seq<Word>, now: nat, depth: nat): set<nat> {
    set i | i in Flat(span) && i < depth :: now + i
  }

  /** The reference: a set of reserved cycles. */
  function AfterSet(reserved: set<nat>, now: nat, op: Operation, depth: nat): set<nat> {
    match op
    case IsFree(_) => reserved
    case Acquire(span) => reserved + Cycles(span, now, depth)
    case Release(span) => reserved - Cycles(span, now, depth)
  }

  function AnswerSet(reserved: set<nat>, now: nat, op: Operation, depth: nat): bool {
    op.IsFree? ==> Cycles(op.wanted, now, depth) * reserved == {}
  }

  lemma {:induction false} CycleMember(span: seq<Word>, now: nat, depth: nat, i: nat)
    ensures now + i in Cycles(span, now, depth) <==> i in Flat(span) && i < depth
  {
  }

  lemma {:induction false} AllReservable(depth: nat, i: nat)
    requires depth % 64 == 0
    ensures i in Reservable(depth) <==> i < depth
    ensures 64 * WordCount(depth) == depth
  {
  }

  /** One operation agrees with the reference. */
  lemma {:induction false} StepRefines(s: State, reserved: set<nat>, now: nat, op: Operation, depth: nat)
    requires depth % 64 == 0 && Tracks(s, reserved, depth) && FineStep(s.last, now, depth)
    ensures Answer(s, now, op, depth) == AnswerSet(reserved, now, op, depth)
    ensures Tracks(After(s, now, op, depth), AfterSet(reserved, now, op, depth), depth)
    ensures After(s, now, op, depth).last == now
  {
    AdvanceTracks(s, reserved, now, depth);
    var t := Current(s, now, depth, depth);
    assert 64 * WordCount(depth) == depth;
    match op
    case IsFree(span) => AnswerRefines(t, reserved, span, depth);
    case Acquire(span) =>
      forall i: nat
        ensures BitRight(After(s, now, op, depth), AfterSet(reserved, now, op, depth), i)
        ensures i in After(s, now, op, depth).bits ==> i < depth
      {
        assert BitRight(t, reserved, i);
        CycleMember(span, now, depth, i);
        AllReservable(depth, i);
      }
    case Release(span) =>
      forall i: nat
        ensures BitRight(After(s, now, op, depth), AfterSet(reserved, now, op, depth), i)
      {
        assert BitRight(t, reserved, i);
        CycleMember(span, now, depth, i);
        AllReservable(depth, i);
      }
  }

  lemma {:induction false} AnswerRefines(t: State, reserved: set<nat>, span: seq<Word>, depth: nat)
    requires Tracks(t, reserved, depth)
    ensures Flat(span) * t.bits == {} <==> Cycles(span, t.last, depth) * reserved == {}
  {
    var wanted, asked := Flat(span) * t.bits, Cycles(span, t.last, depth) * reserved;
    if wanted != {} {
      var i :| i in wanted;
      assert BitRight(t, reserved, i);
      CycleMember(span, t.last, depth, i);
      assert t.last + i in asked;
    }
    if asked != {} {
      var c :| c in asked;
      var i :| i in Flat(span) && i < depth && c == t.last + i;
      assert BitRight(t, reserved, i);
      assert i in wanted;
    }
  }

  /** An operation and the cycle in which it happens. */
  datatype Event = Event(now: nat, op: Operation)

  function Answers(s: State, events: seq<Event>, depth: nat): seq<bool>
    decreases events
  {
    if events == [] then []
    else [Answer(s, events[0].now, events[0].op, depth)] + Answers(After(s, events[0].now, events[0].op, depth), events[1..], depth)
  }

  function AnswersSet(reserved: set<nat>, events: seq<Event>, depth: nat): seq<bool>
    decreases events
  {
    if events == [] then []
    else [AnswerSet(reserved, events[0].now, events[0].op, depth)] + AnswersSet(AfterSet(reserved, events[0].now, events[0].op, depth), events[1..], depth)
  }

  /** Between two uses passes less than a word of cycles, or at least the depth. */
  predicate FineRun(last: nat, events: seq<Event>, depth: nat)
    decreases events
  {
    events == [] || (FineStep(last, events[0].now, depth) && FineRun(events[0].now, events[1..], depth))
  }

  /** In every such run the resource answers like a set of reserved cycles. */
  lemma {:induction false} RunRefines(s: State, reserved: set<nat>, events: seq<Event>, depth: nat)
    requires depth % 64 == 0 && Tracks(s, reserved, depth) && FineRun(s.last, events, depth)
    ensures Answers(s, events, depth) == AnswersSet(reserved, events, depth)
    decreases events
  {
    if events != [] {
      var e := events[0];
      StepRefines(s, reserved, e.now, e.op, depth);
      RunRefines(After(s, e.now, e.op, depth), AfterSet(reserved, e.now, e.op, depth), events[1..], depth);
    }
  }

  // ----- the words of the resource -----

  /** The mask words: all ones, but in the last word only the high bits if the depth does not fill it. */
  ghost predicate MaskWords(depth: nat, ws: seq<Word>) {
    && |ws| == WordCount(depth)
    && forall j | 0 <= j < |ws| :: ws[j] == if depth % 64 > 0 && j == |ws| - 1 then Shl64(Ones(), 64 - depth % 64) else Ones()
  }

  lemma {:induction false} MaskAt(depth: nat, ws: seq<Word>, j: nat, p: nat)
    requires MaskWords(depth, ws) && p < 64
    ensures At(Flat(ws), j, p) <==> At(Reservable(depth), j, p)
  {
    FlatAt(ws, j, p);
    ReservableAt(depth, j, p);
  }

  lemma {:induction false} MaskIsReservable(depth: nat, ws: seq<Word>)
    requires MaskWords(depth, ws)
    ensures Flat(ws) == Reservable(depth)
  {
    forall j: nat, p: nat | p < 64 ensures At(Flat(ws), j, p) <==> At(Reservable(depth), j, p) { MaskAt(depth, ws, j, p); }
    SameWords(Flat(ws), Reservable(depth));
  }

  method NewBits(cycleDepth: nat) returns (bits: array<Word>)
    ensures fresh(bits) && bits.Length == WordCount(cycleDepth) && Flat(bits[..]) == {}
  {
    bits := new Word[(cycleDepth + 63) / 64](_ => {});
    FlatEmpty(bits[..]);
  }

  method NewMask(cycleDepth: nat) returns (mask: array<Word>)
    ensures fresh(mask) && MaskWords(cycleDepth, mask[..])
  {
    mask := new Word[(cycleDepth + 63) / 64](_ => {});
    var ones := Ones();
    for i := 0 to mask.Length
      invariant forall j | 0 <= j < i :: mask[j] == ones
    {
      mask[i] := ones;
    }
    SetLast(mask, ones, cycleDepth % 64);
  }

  method SetLast(mask: array<Word>, ones: Word, mod: nat)
    requires mod > 0 ==> mask.Length > 0 && mod < 64
    modifies mask
    ensures forall j | 0 <= j < mask.Length :: mask[j] == if mod > 0 && j == mask.Length - 1 then Shl64(old(mask[j]), 64 - mod) else old(mask[j])
  {
    if mod > 0 {
      mask[mask.Length - 1] := Shl64(mask[mask.Length - 1], 64 - mod);
    }
  }

  class ComplexResource {
    const cycleDepth: nat
    const bitArray: array<Word>
    const maskArray: array<Word>
    var lastCycle: nat

    constructor (cycleDepth: nat)
      ensures Valid() && this.cycleDepth == cycleDepth && fresh(bitArray) && fresh(maskArray)
      ensures Abstract() == State(0, {}) && Tracks(Abstract(), {}, cycleDepth)
    {
      this.cycleDepth := cycleDepth;
      lastCycle := 0;
      var bits := NewBits(cycleDepth);
      var mask := NewMask(cycleDepth);
      MaskIsReservable(cycleDepth, mask[..]);
      bitArray, maskArray := bits, mask;
    }

    ghost predicate Valid()
      reads this, maskArray
    {
      && bitArray != maskArray
      && bitArray.Length == maskArray.Length == WordCount(cycleDepth)
      && Flat(maskArray[..]) == Reservable(cycleDepth)
    }

    ghost function Abstract(): State
      reads this, bitArray
    {
      State(lastCycle, Flat(bitArray[..]))
    }

    /** Shifts the vector by the number of cycles since it was last shifted. */
    method Advance(now: nat)
      requires Valid()
      modifies `lastCycle, bitArray
      ensures Valid() && Abstract() == Advanced(old(Abstract()), now, cycleDepth, 64 * bitArray.Length)
    {
      var cycles := Gap(lastCycle, now);
      lastCycle := now;
      if cycles > cycleDepth {
        ClearAll(bitArray);
        return;
      }
      ghost var before := bitArray[..];
      MoveWords(bitArray, cycles / 64);
      ghost var between := bitArray[..];
      MoveBits(bitArray, cycles / 64, cycles % 64);
      WordsAndBits(before, between, bitArray[..], cycles / 64, cycles % 64);
    }

    /** Whether no wanted cycle is reserved. */
    method IsFree(now: nat, span: seq<Word>) returns (free: bool)
      requires Valid()
      modifies `lastCycle, bitArray
      ensures Valid() && Abstract() == After(old(Abstract()), now, Operation.IsFree(span), cycleDepth)
      ensures free == Answer(old(Abstract()), now, Operation.IsFree(span), cycleDepth)
    {
      if now != lastCycle {
        Advance(now);
      }
      for i := 0 to Min(|span|, bitArray.Length)
        modifies {}
        invariant forall j | 0 <= j < i :: span[j] * bitArray[j] == {}
      {
        if span[i] * bitArray[i] != {} {
          CommonWord(span, bitArray[..], i);
          return false;
        }
      }
      NoCommonWord(span, bitArray[..]);
      free := true;
    }

    method Acquire(now: nat, span: seq<Word>)
      requires Valid()
      modifies `lastCycle, bitArray
      ensures Valid() && Abstract() == After(old(Abstract()), now, Operation.Acquire(span), cycleDepth)
    {
      if now != lastCycle {
        Advance(now);
      }
      ghost var before := bitArray[..];
      for i := 0 to Min(|span|, bitArray.Length)
        modifies bitArray
        invariant forall j | 0 <= j < bitArray.Length ::
                    bitArray[j] == if j < i then before[j] + span[j] * maskArray[j] else before[j]
      {
        bitArray[i] := bitArray[i] + span[i] * maskArray[i];
      }
      SetWords(before, bitArray[..], span, maskArray[..]);
    }

    method Release(now: nat, span: seq<Word>)
      requires Valid()
      modifies `lastCycle, bitArray
      ensures Valid() && Abstract() == After(old(Abstract()), now, Operation.Release(span), cycleDepth)
    {
      if now != lastCycle {
        Advance(now);
      }
      ghost var before := bitArray[..];
      for i := 0 to Min(|span|, bitArray.Length)
        modifies bitArray
        invariant forall j | 0 <= j < bitArray.Length ::
                    bitArray[j] == if j < i then before[j] - span[j] * maskArray[j] else before[j]
      {
        bitArray[i] := bitArray[i] - span[i] * maskArray[i];
      }
      ClearWords(before, bitArray[..], span, maskArray[..]);
    }
  }
}
