/** Overlays: named rearrangements of instruction word bits, possibly with constant bits mixed in. */
module Overlays {
  import opened Words
  import opened Status

  /** A field of a format. Its low position is -1 until the format has placed it. */
  datatype Field = Field(name: string, isSigned: bool, low: int, width: nat)

  /** A component of an overlay, leftmost (most significant) component first. The position is that
      of the component's high bit inside the overlay value, -1 until the layout is computed. A
      reference to a named field has field relative bounds until then. */
  datatype Component =
    | Literal(value: Bits, width: nat, position: int)
    | Reference(field: Option<string>, high: int, low: int, width: nat, position: int)

  datatype BitRange = BitRange(first: int, last: int)

  /** Where one bit of an overlay value comes from: a bit of the instruction word or a constant. */
  datatype Origin = FromWord(pos: nat) | Fixed(one: bool)

  // ----- reference semantics -----

  /** A component refers to existing word bits and is as wide as it says. */
  predicate Sound(c: Component) {
    match c
    case Literal(value, width, _) => Fits(value, width)
    case Reference(_, high, low, width, _) => 0 <= low <= high < 64 && width == high - low + 1 && width < 64
  }

  function OriginAt(c: Component, i: nat): Origin {
    match c
    case Literal(value, _, _) => Fixed(i in value)
    case Reference(_, _, low, _, _) => if low < 0 then Fixed(false) else FromWord(low + i)
  }

  /** The origins of the low n bits of one component, least significant first. */
  function FirstOrigins(c: Component, n: nat): (r: seq<Origin>)
    ensures |r| == n && forall i | 0 <= i < n :: r[i] == OriginAt(c, i)
  {
    if n == 0 then [] else FirstOrigins(c, n - 1) + [OriginAt(c, n - 1)]
  }

  function ComponentOrigins(c: Component): (r: seq<Origin>)
    ensures |r| == c.width && forall i | 0 <= i < c.width :: r[i] == OriginAt(c, i)
  {
    FirstOrigins(c, c.width)
  }

  /** The origins of all bits of the overlay value, least significant first. */
  function Origins(cs: seq<Component>): seq<Origin> {
    if cs == [] then [] else Origins(cs[1..]) + ComponentOrigins(cs[0])
  }

  predicate ReadsOne(o: Origin, w: Bits) {
    match o
    case FromWord(p) => p in w
    case Fixed(one) => one
  }

  /** Bit j of the overlay value read from the word w. */
  predicate Reads(os: seq<Origin>, w: Bits, j: nat) {
    j < |os| && ReadsOne(os[j], w)
  }

  /** The overlay value of an instruction word. */
  function ValueOf(os: seq<Origin>, w: Bits): (r: Bits)
    ensures forall j: nat :: j in r <==> Reads(os, w, j)
  {
    set j | j in Low(|os|) && Reads(os, w, j)
  }

  /** The word bits referred to. */
  function MaskOf(os: seq<Origin>): Bits {
    set j | 0 <= j < |os| && os[j].FromWord? :: os[j].pos
  }

  /** The word with the overlay value v spread over the bits referred to. */
  function FieldOf(os: seq<Origin>, v: Bits): Bits {
    set j | 0 <= j < |os| && os[j].FromWord? && j in v :: os[j].pos
  }

  /** v has exactly the constant bits of the overlay and nothing beyond its width. */
  predicate AgreesWithConstants(os: seq<Origin>, v: Bits) {
    Fits(v, |os|) && forall j: nat | j < |os| && os[j].Fixed? :: j in v <==> os[j].one
  }

  predicate RepeatsNoBit(os: seq<Origin>) {
    forall i: nat, j: nat | i < j < |os| && os[i].FromWord? && os[j].FromWord? :: os[i].pos != os[j].pos
  }

  predicate ConstantFree(os: seq<Origin>) {
    forall j: nat | j < |os| :: os[j].FromWord?
  }

  /** Reading a word and spreading the value again masks the word. */
  lemma {:induction false} FieldOfValue(os: seq<Origin>, w: Bits)
    ensures FieldOf(os, ValueOf(os, w)) == w * MaskOf(os)
  {
  }

  /** Spreading a value and reading it back returns the value, for every value with the right
      constant bits, exactly when the overlay repeats no bit. */
  lemma {:induction false} ValueOfFieldIff(os: seq<Origin>)
    ensures RepeatsNoBit(os) <==>
            forall v: Bits :: AgreesWithConstants(os, v) ==> ValueOf(os, FieldOf(os, v)) == v
  {
    if RepeatsNoBit(os) {
      forall v: Bits | AgreesWithConstants(os, v)
        ensures ValueOf(os, FieldOf(os, v)) == v
      {
        ValueOfField(os, v);
      }
    } else {
      var i: nat, j: nat :| i < j < |os| && os[i].FromWord? && os[j].FromWord? && os[i].pos == os[j].pos;
      var v := (set k | k in Low(|os|) && os[k].Fixed? && os[k].one) + {i};
      assert AgreesWithConstants(os, v);
      assert j in ValueOf(os, FieldOf(os, v)) && j !in v;
    }
  }

  lemma {:induction false} ValueOfField(os: seq<Origin>, v: Bits)
    requires RepeatsNoBit(os) && AgreesWithConstants(os, v)
    ensures ValueOf(os, FieldOf(os, v)) == v
  {
    forall j: nat
      ensures Reads(os, FieldOf(os, v), j) <==> j in v
    {
      if j < |os| && os[j].FromWord? && os[j].pos in FieldOf(os, v) {
        var i: nat :| i < |os| && os[i].FromWord? && i in v && os[i].pos == os[j].pos;
        assert i == j;
      }
    }
  }

  /** For an overlay without constants that repeats no bit, comparing the extracted value is the
      same as comparing the masked word with the spread value. */
  lemma {:induction false} CompareMasked(os: seq<Origin>, w: Bits, v: Bits)
    requires RepeatsNoBit(os) && ConstantFree(os) && Fits(v, |os|)
    ensures ValueOf(os, w) == v <==> w * MaskOf(os) == FieldOf(os, v)
  {
    FieldOfValue(os, w);
    ValueOfField(os, v);
    if w * MaskOf(os) == FieldOf(os, v) {
      forall j: nat
        ensures Reads(os, w, j) <==> Reads(os, FieldOf(os, v), j)
      {
        if j < |os| { assert os[j].pos in MaskOf(os); }
      }
    }
  }

  // ----- a finished overlay -----

  /** Positions are assigned and references are relative to the format. */
  predicate Placed(cs: seq<Component>) {
    cs == [] || (Sound(cs[0]) && cs[0].position == |Origins(cs)| - 1 && Placed(cs[1..]))
  }

  /** Statements emitted to extract the value of an overlay from a word: the first one assigns,
      the others or their operand into the result. */
  datatype Statement =
    | OrLiteral(value: Bits, shift: nat)
    | OrMasked(mask: Word, rightShift: int)

  function Operand(s: Statement, w: Bits): Bits {
    match s
    case OrLiteral(value, shift) => Shl(value, shift)
    case OrMasked(mask, d) => if d < 0 then Shl(w * mask, -d) else Shr(w * mask, d)
  }

  /** The result variable after the statements, the first of which assigns and the others or. */
  function RunFrom(result: Option<Bits>, ss: seq<Statement>, w: Bits): Option<Bits>
    decreases ss
  {
    if ss == [] then result
    else RunFrom(Some((if result.None? then {} else result.value) + Operand(ss[0], w)), ss[1..], w)
  }

  /** The result variable has no value before the first assignment. */
  function RunStatements(ss: seq<Statement>, w: Bits): Option<Bits> {
    RunFrom(None, ss, w)
  }

  function Shift(x: Bits, d: int): Bits {
    if d < 0 then Shl(x, -d) else Shr(x, d)
  }

  /** What a component contributes to the value. */
  function ComponentValue(c: Component, w: Bits): Bits
    requires Sound(c) && c.position >= c.width - 1
  {
    match c
    case Literal(value, width, position) => Shl(value, position - width + 1)
    case Reference(_, high, low, width, position) => Shift(w * Shl(Low(width), low), high - position)
  }

  /** What a component contributes to the word. */
  function ComponentField(c: Component, v: Bits): Bits
    requires Sound(c) && c.position >= c.width - 1
  {
    match c
    case Literal(_, _, _) => {}
    case Reference(_, high, low, width, position) => Shl(Shr(v, position - width + 1) * Low(width), low)
  }

  /** The contributions of all components to the value and to the word. */
  function AllValues(cs: seq<Component>, w: Bits): Bits
    requires Placed(cs)
  {
    if cs == [] then {} else ComponentValue(cs[0], w) + AllValues(cs[1..], w)
  }

  function AllFields(cs: seq<Component>, v: Bits): Bits
    requires Placed(cs)
  {
    if cs == [] then {} else ComponentField(cs[0], v) + AllFields(cs[1..], v)
  }

  lemma {:induction false} ValueAppend(a: seq<Origin>, b: seq<Origin>, w: Bits)
    ensures ValueOf(a + b, w) == ValueOf(a, w) + Shl(ValueOf(b, w), |a|)
  {
  }

  lemma {:induction false} FieldAppend(a: seq<Origin>, b: seq<Origin>, v: Bits)
    ensures FieldOf(a + b, v) == FieldOf(a, v) + FieldOf(b, Shr(v, |a|))
  {
    forall p: nat
      ensures p in FieldOf(a + b, v) <==> p in FieldOf(a, v) || p in FieldOf(b, Shr(v, |a|))
    {
      if p in FieldOf(a, v) {
        var j: nat :| j < |a| && a[j].FromWord? && j in v && a[j].pos == p;
        assert (a + b)[j] == a[j];
      }
      if p in FieldOf(b, Shr(v, |a|)) {
        var j: nat :| j < |b| && b[j].FromWord? && j in Shr(v, |a|) && b[j].pos == p;
        assert (a + b)[|a| + j] == b[j];
      }
    }
  }

  lemma {:induction false} ComponentValueBit(c: Component, w: Bits, lo: nat, j: nat)
    requires Sound(c) && c.position == lo + c.width - 1
    ensures j in ComponentValue(c, w) <==> lo <= j < lo + c.width && ReadsOne(OriginAt(c, j - lo), w)
  {
    if c.Reference? {
      var q := j + (c.low - lo);
      if q >= 0 {
        assert q in w * Shl(Low(c.width), c.low) <==> c.low <= q < c.low + c.width && q in w;
      }
    }
  }

  lemma {:induction false} ComponentValueBits(c: Component, w: Bits, lo: nat)
    requires Sound(c) && c.position == lo + c.width - 1
    ensures ComponentValue(c, w) == Shl(ValueOf(ComponentOrigins(c), w), lo)
  {
    forall j: nat
      ensures j in ComponentValue(c, w) <==> j >= lo && Reads(ComponentOrigins(c), w, j - lo)
    {
      ComponentValueBit(c, w, lo, j);
    }
  }

  lemma {:induction false} ComponentFieldBits(c: Component, v: Bits, lo: nat)
    requires Sound(c) && c.position == lo + c.width - 1
    ensures ComponentField(c, v) == FieldOf(ComponentOrigins(c), Shr(v, lo))
  {
    var os := ComponentOrigins(c);
    forall p: nat | p in ComponentField(c, v)
      ensures p in FieldOf(os, Shr(v, lo))
    {
      assert os[p - c.low] == FromWord(p);
    }
  }

  lemma {:induction false} AllContributions(cs: seq<Component>, x: Bits)
    requires Placed(cs)
    ensures AllValues(cs, x) == ValueOf(Origins(cs), x)
    ensures AllFields(cs, x) == FieldOf(Origins(cs), x)
  {
    if cs != [] {
      var lower := Origins(cs[1..]);
      AllContributions(cs[1..], x);
      ComponentValueBits(cs[0], x, |lower|);
      ComponentFieldBits(cs[0], x, |lower|);
      ValueAppend(lower, ComponentOrigins(cs[0]), x);
      FieldAppend(lower, ComponentOrigins(cs[0]), x);
    }
  }

  lemma {:induction false} JoinNext(before: Bits, part: Bits, rest: Bits, whole: Bits)
    requires before + (part + rest) == whole
    ensures (before + part) + rest == whole
  {
    UnionAssociates(before, part, rest);
  }

  lemma {:induction false} UnionAssociates(a: Bits, b: Bits, c: Bits)
    ensures (a + b) + c == a + (b + c)
  {
  }

  lemma {:induction false} SplitFirst(cs: seq<Component>, i: nat, x: Bits)
    requires i < |cs| && Placed(cs[i..])
    ensures Placed(cs[i + 1..]) && Sound(cs[i]) && cs[i].position >= cs[i].width - 1
    ensures AllValues(cs[i..], x) == ComponentValue(cs[i], x) + AllValues(cs[i + 1..], x)
    ensures AllFields(cs[i..], x) == ComponentField(cs[i], x) + AllFields(cs[i + 1..], x)
  {
    assert cs[i..][1..] == cs[i + 1..];
  }

  /** All operands or-ed together. */
  function AllOperands(ss: seq<Statement>, w: Bits): Bits {
    if ss == [] then {} else Operand(ss[0], w) + AllOperands(ss[1..], w)
  }

  lemma {:induction false} RunIsUnion(result: Option<Bits>, ss: seq<Statement>, w: Bits)
    requires ss != [] || result.Some?
    ensures RunFrom(result, ss, w) == Some((if result.None? then {} else result.value) + AllOperands(ss, w))
    decreases ss
  {
    var before := if result.None? then {} else result.value;
    if ss == [] {
      assert before + {} == before;
    } else {
      RunIsUnion(Some(before + Operand(ss[0], w)), ss[1..], w);
      UnionAssociates(before, Operand(ss[0], w), AllOperands(ss[1..], w));
    }
  }

  function StatementFor(c: Component): Statement
    requires Sound(c) && c.position >= c.width - 1
  {
    match c
    case Literal(value, width, position) => OrLiteral(value, position - width + 1)
    case Reference(_, high, low, width, position) => OrMasked(Shl(Low(width), low), high - position)
  }

  /** The statements of an extractor: none for constant zeros. */
  function StatementsFor(cs: seq<Component>): seq<Statement>
    requires Placed(cs)
  {
    if cs == [] then []
    else if cs[0].Literal? && cs[0].value == {} then StatementsFor(cs[1..])
    else [StatementFor(cs[0])] + StatementsFor(cs[1..])
  }

  lemma {:induction false} OperandIsValue(c: Component, w: Bits)
    requires Sound(c) && c.position >= c.width - 1
    ensures Operand(StatementFor(c), w) == ComponentValue(c, w)
  {
  }

  lemma {:induction false} OperandsFirst(s: Statement, ss: seq<Statement>, w: Bits)
    ensures AllOperands([s] + ss, w) == Operand(s, w) + AllOperands(ss, w)
  {
    assert ([s] + ss)[1..] == ss;
  }

  lemma {:induction false} StatementsCompute(cs: seq<Component>, w: Bits)
    requires Placed(cs)
    ensures AllOperands(StatementsFor(cs), w) == ValueOf(Origins(cs), w)
  {
    AllContributions(cs, w);
    if cs != [] {
      StatementsCompute(cs[1..], w);
      AllContributions(cs[1..], w);
      if cs[0].Literal? && cs[0].value == {} {
        assert ComponentValue(cs[0], w) == {};
      } else {
        OperandsFirst(StatementFor(cs[0]), StatementsFor(cs[1..]), w);
        OperandIsValue(cs[0], w);
      }
    }
  }

  /** Nothing but constant zeros: the extractor has nothing to emit. */
  predicate OnlyZeros(cs: seq<Component>) {
    cs == [] || (cs[0].Literal? && cs[0].value == {} && OnlyZeros(cs[1..]))
  }

  // ----- the integer types of the emitted statements -----

  /** The bits of the smallest unsigned integer type for a width of at most 64. */
  function TypeBits(width: nat): nat {
    if width <= 8 then 8 else if width <= 16 then 16 else if width <= 32 then 32 else 64
  }

  /** The smallest of the integer types that holds the width. */
  lemma {:induction false} TypeBitsLeast(width: nat, bits: nat)
    requires width <= 64 && bits in {8, 16, 32, 64}
    ensures TypeBits(width) in {8, 16, 32, 64} && (width <= bits <==> TypeBits(width) <= bits)
  {
  }

  /** An integer type of the emitted code. */
  datatype IntType = IntType(bits: nat, signed: bool)

  /** The type in which the operand of a statement is shifted: a literal below 2^31 and a masked word of up to 16
      bits are ints, a longer literal is a long, and a longer word keeps its unsigned type. */
  function TypeOf(s: Statement, formatWidth: nat): IntType {
    match s
    case OrLiteral(value, _) => if Fits(value, 31) then IntType(32, true) else IntType(64, true)
    case OrMasked(_, _) =>
      if formatWidth <= 16 then IntType(32, true) else if formatWidth <= 32 then IntType(32, false) else IntType(64, false)
  }

  function LeftShift(s: Statement): nat {
    match s
    case OrLiteral(_, shift) => shift
    case OrMasked(_, d) => if d < 0 then -d else 0
  }

  /** The operand in its type: None if the shift is undefined, because the type has no more bits than it shifts by or,
      if it is signed, cannot hold the bits of the result. An unsigned type drops what is shifted out. */
  function ShiftedOperand(s: Statement, w: Bits, t: IntType): Option<Bits> {
    if LeftShift(s) >= t.bits then None
    else if Fits(Operand(s, w), t.bits) then Some(Operand(s, w))
    else if t.signed then None
    else Some(Operand(s, w) * Low(t.bits))
  }

  /** The low bits of a result of an operand x: the top bit of a signed operand fills all bits above it. */
  function Converted(x: Bits, t: IntType, resultBits: nat): (r: Bits)
    ensures forall p: nat {:trigger p in r} :: p in r <==> p < resultBits && (p in x || (t.signed && t.bits <= p && t.bits - 1 in x))
  {
    set p | p in Low(resultBits) && (p in x || (t.signed && t.bits <= p && t.bits - 1 in x))
  }

  function TypedOperand(s: Statement, w: Bits, formatWidth: nat, resultBits: nat): Option<Bits> {
    match ShiftedOperand(s, w, TypeOf(s, formatWidth))
    case None => None
    case Some(x) => Some(Converted(x, TypeOf(s, formatWidth), resultBits))
  }

  /** The operands or-ed together, each in its own type. */
  function AllTyped(ss: seq<Statement>, w: Bits, formatWidth: nat, resultBits: nat): Option<Bits> {
    if ss == [] then Some({})
    else
      match (TypedOperand(ss[0], w, formatWidth, resultBits), AllTyped(ss[1..], w, formatWidth, resultBits))
      case (Some(x), Some(rest)) => Some(x + rest)
      case _ => None
  }

  /** The low bits of the result variable after the statements; it has no value without a statement. */
  function RunTyped(ss: seq<Statement>, w: Bits, formatWidth: nat, resultBits: nat): Option<Bits> {
    if ss == [] then None else AllTyped(ss, w, formatWidth, resultBits)
  }

  function ComponentType(c: Component, formatWidth: nat): IntType
    requires Sound(c) && c.position >= c.width - 1
  {
    TypeOf(StatementFor(c), formatWidth)
  }

  /** All bits of the component fit in the type of its operand. */
  predicate Within(c: Component, formatWidth: nat)
    requires Sound(c) && c.position >= c.width - 1
  {
    match c
    case Literal(value, width, position) => Fits(Shl(value, position - width + 1), ComponentType(c, formatWidth).bits)
    case Reference(_, _, _, _, position) => position < ComponentType(c, formatWidth).bits
  }

  predicate AllWithin(cs: seq<Component>, formatWidth: nat)
    requires Placed(cs)
  {
    cs == [] || (Within(cs[0], formatWidth) && AllWithin(cs[1..], formatWidth))
  }

  /** The operand of some component is an int with its top bit set. */
  predicate Spreads(cs: seq<Component>, w: Bits, formatWidth: nat)
    requires Placed(cs)
  {
    cs != [] &&
    (|| (ComponentType(cs[0], formatWidth) == IntType(32, true) && 31 in ComponentValue(cs[0], w))
     || Spreads(cs[1..], w, formatWidth))
  }

  /** Bits 32 and up. */
  function UpperBits(resultBits: nat): (r: Bits)
    ensures forall p: nat {:trigger p in r} :: p in r <==> 32 <= p < resultBits
  {
    set p | p in Low(resultBits) && 32 <= p
  }

  /** All bits of the result from 32 on are constant ones of the value. */
  predicate UpperOnes(os: seq<Origin>, resultBits: nat) {
    resultBits <= |os| && forall j: nat | 32 <= j < resultBits :: os[j] == Fixed(true)
  }

  /** No component has bits beyond the type of its operand, and where an int may have its top bit set there is nothing
      above it in the result, or only constant ones. */
  predicate TypesFit(cs: seq<Component>, formatWidth: nat, resultBits: nat)
    requires Placed(cs)
  {
    && AllWithin(cs, formatWidth)
    && (resultBits <= 32 || !Spreads(cs, Low(formatWidth), formatWidth) || UpperOnes(Origins(cs), resultBits))
  }

  /** The references stay within the format. */
  predicate InFormat(cs: seq<Component>, formatWidth: nat) {
    forall k | 0 <= k < |cs| && cs[k].Reference? :: cs[k].high < formatWidth
  }

  /** A component fills the value bits from lo to its position. */
  lemma {:induction false} ComponentRange(c: Component, w: Bits, lo: nat)
    requires Sound(c) && c.position == lo + c.width - 1
    ensures forall p | p in ComponentValue(c, w) :: lo <= p <= c.position
  {
    forall p | p in ComponentValue(c, w) ensures lo <= p <= c.position { ComponentValueBit(c, w, lo, p); }
  }

  lemma {:induction false} ValuesRange(cs: seq<Component>, w: Bits)
    requires Placed(cs)
    ensures forall p | p in AllValues(cs, w) :: p < |Origins(cs)|
  {
    AllContributions(cs, w);
  }

  lemma {:induction false} WithinOperand(c: Component, w: Bits, formatWidth: nat, lo: nat)
    requires Sound(c) && c.position == lo + c.width - 1 && Within(c, formatWidth) && !(c.Literal? && c.value == {})
    ensures ShiftedOperand(StatementFor(c), w, ComponentType(c, formatWidth)) == Some(ComponentValue(c, w))
  {
    OperandIsValue(c, w);
    ComponentRange(c, w, lo);
    if c.Literal? {
      var p :| p in c.value;
      assert p + lo in Shl(c.value, lo);
    }
  }

  /** What a component of at most 64 bits below the result contributes to it. */
  lemma {:induction false} WithinConverted(c: Component, w: Bits, formatWidth: nat, lo: nat, resultBits: nat)
    requires Sound(c) && c.position == lo + c.width - 1 < resultBits <= 64 && Within(c, formatWidth)
    ensures Converted(ComponentValue(c, w), ComponentType(c, formatWidth), resultBits) ==
            ComponentValue(c, w) +
            if ComponentType(c, formatWidth) == IntType(32, true) && 31 in ComponentValue(c, w) then UpperBits(resultBits) else {}
  {
    ComponentRange(c, w, lo);
  }

  lemma {:induction false} JoinSpread(a: Bits, b: Bits, u: Bits, v: Bits, upper: Bits)
    requires (u == {} || u == upper) && (v == {} || v == upper)
    ensures (a + u) + (b + v) == (a + b) + if u == upper || v == upper then upper else {}
  {
  }

  /** When all components are within their types, nothing is undefined, and all that can go wrong is the filling of the
      upper half by an int. */
  lemma {:induction false} TypedValue(cs: seq<Component>, w: Bits, formatWidth: nat, resultBits: nat)
    requires Placed(cs) && AllWithin(cs, formatWidth) && |Origins(cs)| <= resultBits <= 64
    ensures AllTyped(StatementsFor(cs), w, formatWidth, resultBits) ==
            Some(AllValues(cs, w) + if Spreads(cs, w, formatWidth) then UpperBits(resultBits) else {})
  {
    if cs == [] {
      assert {} + {} == AllValues(cs, w);
    } else {
      var lo := |Origins(cs[1..])|;
      TypedValue(cs[1..], w, formatWidth, resultBits);
      if cs[0].Literal? && cs[0].value == {} {
        assert ComponentValue(cs[0], w) == {};
        assert AllValues(cs, w) == AllValues(cs[1..], w);
      } else {
        WithinOperand(cs[0], w, formatWidth, lo);
        WithinConverted(cs[0], w, formatWidth, lo, resultBits);
        TypedCons(StatementFor(cs[0]), StatementsFor(cs[1..]), w, formatWidth, resultBits);
        JoinSpread(ComponentValue(cs[0], w), AllValues(cs[1..], w),
                   if ComponentType(cs[0], formatWidth) == IntType(32, true) && 31 in ComponentValue(cs[0], w) then UpperBits(resultBits) else {},
                   if Spreads(cs[1..], w, formatWidth) then UpperBits(resultBits) else {}, UpperBits(resultBits));
      }
    }
  }

  lemma {:induction false} TypedCons(s: Statement, ss: seq<Statement>, w: Bits, formatWidth: nat, resultBits: nat)
    ensures AllTyped([s] + ss, w, formatWidth, resultBits) ==
            match (TypedOperand(s, w, formatWidth, resultBits), AllTyped(ss, w, formatWidth, resultBits))
            case (Some(x), Some(rest)) => Some(x + rest)
            case _ => None
  {
    assert ([s] + ss)[1..] == ss;
  }

  /** A longer result has the same low bits. */
  lemma {:induction false} TypedLowBits(ss: seq<Statement>, w: Bits, formatWidth: nat, few: nat, many: nat)
    requires few <= many
    ensures AllTyped(ss, w, formatWidth, few) ==
            match AllTyped(ss, w, formatWidth, many)
            case None => None
            case Some(x) => Some(x * Low(few))
  {
    if ss == [] {
      assert {} * Low(few) == {};
    } else {
      TypedLowBits(ss[1..], w, formatWidth, few, many);
      match ShiftedOperand(ss[0], w, TypeOf(ss[0], formatWidth))
      case None =>
      case Some(x) =>
        var all := Converted(x, TypeOf(ss[0], formatWidth), many);
        assert Converted(x, TypeOf(ss[0], formatWidth), few) == all * Low(few);
        match AllTyped(ss[1..], w, formatWidth, many)
        case None =>
        case Some(rest) => MaskUnion(all, rest, Low(few));
    }
  }

  lemma {:induction false} MaskUnion(a: Bits, b: Bits, mask: Bits)
    ensures a * mask + b * mask == (a + b) * mask
  {
  }

  lemma {:induction false} NoStatement(cs: seq<Component>)
    requires Placed(cs)
    ensures StatementsFor(cs) == [] <==> OnlyZeros(cs)
  {
    if cs != [] { NoStatement(cs[1..]); }
  }

  lemma {:induction false} OriginsInFormat(cs: seq<Component>, formatWidth: nat)
    requires Placed(cs) && InFormat(cs, formatWidth)
    ensures forall j: nat | j < |Origins(cs)| && Origins(cs)[j].FromWord? :: Origins(cs)[j].pos < formatWidth
  {
    if cs != [] {
      assert forall k | 0 <= k < |cs[1..]| :: cs[1..][k] == cs[k + 1];
      OriginsInFormat(cs[1..], formatWidth);
    }
  }

  /** A larger word sets more bits, so that the word of ones shows whether an int may spread. */
  lemma {:induction false} SpreadsMore(cs: seq<Component>, w: Bits, formatWidth: nat)
    requires Placed(cs) && Fits(w, formatWidth) && Spreads(cs, w, formatWidth)
    ensures Spreads(cs, Low(formatWidth), formatWidth)
  {
    if Spreads(cs[1..], w, formatWidth) {
      SpreadsMore(cs[1..], w, formatWidth);
    } else {
      var lo := |Origins(cs[1..])|;
      ComponentValueBit(cs[0], w, lo, 31);
      ComponentValueBit(cs[0], Low(formatWidth), lo, 31);
    }
  }

  /** In formats of more than 16 bits only literals are ints. */
  lemma {:induction false} SpreadsAlways(cs: seq<Component>, w: Bits, formatWidth: nat)
    requires Placed(cs) && formatWidth > 16 && Spreads(cs, w, formatWidth)
    ensures Spreads(cs, {}, formatWidth)
  {
    if Spreads(cs[1..], w, formatWidth) { SpreadsAlways(cs[1..], w, formatWidth); }
  }

  /** Components of small formats that are within an int take no word bits to the upper half. */
  lemma {:induction false} UpperFixed(cs: seq<Component>, formatWidth: nat)
    requires Placed(cs) && AllWithin(cs, formatWidth) && formatWidth <= 16
    ensures forall j: nat | 32 <= j < |Origins(cs)| :: Origins(cs)[j].Fixed?
  {
    if cs != [] { UpperFixed(cs[1..], formatWidth); }
  }

  /** Within their types the operands give the value exactly when no int spreads over bits that should be zero. */
  lemma {:induction false} WithinAt(cs: seq<Component>, w: Bits, formatWidth: nat, resultBits: nat)
    requires Placed(cs) && AllWithin(cs, formatWidth) && |Origins(cs)| <= resultBits <= 64
    ensures AllTyped(StatementsFor(cs), w, formatWidth, resultBits) == Some(ValueOf(Origins(cs), w)) <==>
            (Spreads(cs, w, formatWidth) ==> UpperBits(resultBits) <= ValueOf(Origins(cs), w))
  {
    TypedValue(cs, w, formatWidth, resultBits);
    AllContributions(cs, w);
    SupersetIff(ValueOf(Origins(cs), w), UpperBits(resultBits));
  }

  lemma {:induction false} SupersetIff(a: Bits, b: Bits)
    ensures a + {} == a
    ensures a + b == a <==> b <= a
  {
    if a + b == a { assert b <= a + b; }
  }

  lemma {:induction false} UpperOnesRead(os: seq<Origin>, w: Bits, resultBits: nat)
    requires UpperOnes(os, resultBits)
    ensures UpperBits(resultBits) <= ValueOf(os, w)
  {
    forall j | j in UpperBits(resultBits) ensures j in ValueOf(os, w) {
      assert os[j] == Fixed(true) && Reads(os, w, j);
    }
  }

  lemma {:induction false} WithinRight(cs: seq<Component>, w: Bits, formatWidth: nat, resultBits: nat)
    requires Placed(cs) && TypesFit(cs, formatWidth, resultBits) && |Origins(cs)| <= resultBits <= 64 && Fits(w, formatWidth)
    ensures AllTyped(StatementsFor(cs), w, formatWidth, resultBits) == Some(ValueOf(Origins(cs), w))
  {
    WithinAt(cs, w, formatWidth, resultBits);
    if Spreads(cs, w, formatWidth) {
      SpreadsMore(cs, w, formatWidth);
      if resultBits > 32 { UpperOnesRead(Origins(cs), w, resultBits); }
    }
  }

  lemma {:induction false} WithinWrong(cs: seq<Component>, formatWidth: nat, resultBits: nat) returns (w: Bits)
    requires Placed(cs) && AllWithin(cs, formatWidth) && |Origins(cs)| <= resultBits <= 64
    requires !TypesFit(cs, formatWidth, resultBits)
    ensures Fits(w, formatWidth) && AllTyped(StatementsFor(cs), w, formatWidth, resultBits) != Some(ValueOf(Origins(cs), w))
  {
    if formatWidth <= 16 {
      w := Low(formatWidth);
      UpperFixed(cs, formatWidth);
    } else {
      w := {};
      SpreadsAlways(cs, Low(formatWidth), formatWidth);
    }
    WithinAt(cs, w, formatWidth, resultBits);
    var j: nat := if |Origins(cs)| < resultBits then resultBits - 1
                  else var i: nat :| 32 <= i < resultBits && Origins(cs)[i] != Fixed(true); i;
    assert j in UpperBits(resultBits) && !Reads(Origins(cs), w, j);
  }

  /** The upper half of the result does not depend on a word of 17 to 32 bits. */
  lemma {:induction false} SameUpper(cs: seq<Component>, w: Bits, w': Bits, formatWidth: nat, resultBits: nat, a: Bits, b: Bits, p: nat)
    requires Placed(cs) && 16 < formatWidth <= 32 && 32 <= p
    requires AllTyped(StatementsFor(cs), w, formatWidth, resultBits) == Some(a)
    requires AllTyped(StatementsFor(cs), w', formatWidth, resultBits) == Some(b)
    ensures p in a <==> p in b
  {
    if cs != [] {
      if cs[0].Literal? && cs[0].value == {} {
        SameUpper(cs[1..], w, w', formatWidth, resultBits, a, b, p);
      } else {
        TypedCons(StatementFor(cs[0]), StatementsFor(cs[1..]), w, formatWidth, resultBits);
        TypedCons(StatementFor(cs[0]), StatementsFor(cs[1..]), w', formatWidth, resultBits);
        SameUpper(cs[1..], w, w', formatWidth, resultBits, AllTyped(StatementsFor(cs[1..]), w, formatWidth, resultBits).value,
                  AllTyped(StatementsFor(cs[1..]), w', formatWidth, resultBits).value, p);
      }
    }
  }

  /** A component with bits beyond its type: the shift is undefined on the word of ones, or word bits are wanted in the
      upper half where an unsigned operand has none. */
  lemma {:induction false} OutsideComponent(c: Component, formatWidth: nat, resultBits: nat, lo: nat)
    requires Sound(c) && c.position == lo + c.width - 1 < 64 && !Within(c, formatWidth)
    requires c.Reference? ==> c.high < formatWidth
    ensures TypedOperand(StatementFor(c), Low(formatWidth), formatWidth, resultBits) == None ||
            (16 < formatWidth <= 32 && c.Reference? && 32 <= c.position)
  {
    OperandIsValue(c, Low(formatWidth));
    ComponentRange(c, Low(formatWidth), lo);
    if c.Reference? {
      ComponentValueBit(c, Low(formatWidth), lo, c.position);
    }
  }

  lemma {:induction false} OutsideWrong(cs: seq<Component>, formatWidth: nat, resultBits: nat)
    requires Placed(cs) && InFormat(cs, formatWidth) && !AllWithin(cs, formatWidth) && |Origins(cs)| <= 64
    ensures AllTyped(StatementsFor(cs), Low(formatWidth), formatWidth, resultBits) == None ||
            (16 < formatWidth <= 32 && exists j: nat :: 32 <= j < |Origins(cs)| && Origins(cs)[j].FromWord?)
  {
    if !(cs[0].Literal? && cs[0].value == {}) {
      TypedCons(StatementFor(cs[0]), StatementsFor(cs[1..]), Low(formatWidth), formatWidth, resultBits);
    }
    if Within(cs[0], formatWidth) {
      assert forall k | 0 <= k < |cs[1..]| :: cs[1..][k] == cs[k + 1];
      OutsideWrong(cs[1..], formatWidth, resultBits);
      if j: nat :| 32 <= j < |Origins(cs[1..])| && Origins(cs[1..])[j].FromWord? {
        assert Origins(cs)[j] == Origins(cs[1..])[j];
      }
    } else {
      OutsideComponent(cs[0], formatWidth, resultBits, |Origins(cs[1..])|);
      if cs[0].Reference? {
        assert Origins(cs)[cs[0].position] == OriginAt(cs[0], cs[0].width - 1);
      }
    }
  }

  /** Exactly when the emitted extractor, run in the types of its operands, gives the overlay value of every word of
      the format in a result of resultBits bits. */
  lemma {:induction false} TypedIff(cs: seq<Component>, formatWidth: nat, resultBits: nat)
    requires Placed(cs) && InFormat(cs, formatWidth) && |Origins(cs)| <= resultBits <= 64
    ensures !OnlyZeros(cs) && TypesFit(cs, formatWidth, resultBits) <==>
            forall w: Bits | Fits(w, formatWidth) ::
              RunTyped(StatementsFor(cs), w, formatWidth, resultBits) == Some(ValueOf(Origins(cs), w))
  {
    NoStatement(cs);
    if OnlyZeros(cs) {
      assert Fits({}, formatWidth);
    } else if AllWithin(cs, formatWidth) {
      if TypesFit(cs, formatWidth, resultBits) {
        forall w: Bits | Fits(w, formatWidth)
          ensures RunTyped(StatementsFor(cs), w, formatWidth, resultBits) == Some(ValueOf(Origins(cs), w))
        {
          WithinRight(cs, w, formatWidth, resultBits);
        }
      } else {
        var w := WithinWrong(cs, formatWidth, resultBits);
      }
    } else {
      OutsideWrong(cs, formatWidth, resultBits);
      OriginsInFormat(cs, formatWidth);
      var os, ones := Origins(cs), Low(formatWidth);
      assert Fits(ones, formatWidth) && Fits({}, formatWidth);
      var at1, at0 := AllTyped(StatementsFor(cs), ones, formatWidth, resultBits), AllTyped(StatementsFor(cs), {}, formatWidth, resultBits);
      if at1.Some? && at0.Some? {
        var j: nat :| 32 <= j < |os| && os[j].FromWord?;
        SameUpper(cs, ones, {}, formatWidth, resultBits, at1.value, at0.value, j);
        assert Reads(os, ones, j) && !Reads(os, {}, j);
      }
    }
  }

  function BitOverZeros(bit: nat, zeros: nat): seq<Component> {
    [Reference(None, bit, bit, 1, zeros), Literal({}, zeros, zeros - 1)]
  }

  lemma {:induction false} OneStatement(bit: nat, zeros: nat)
    requires bit < 64
    ensures Placed(BitOverZeros(bit, zeros)) && StatementsFor(BitOverZeros(bit, zeros)) == [OrMasked(Shl(Low(1), bit), bit - zeros)]
    ensures |Origins(BitOverZeros(bit, zeros))| == zeros + 1 && Origins(BitOverZeros(bit, zeros))[zeros] == FromWord(bit)
  {
    var cs := BitOverZeros(bit, zeros);
    assert cs[1..] == [cs[1]] && [cs[1]][1..] == [];
    assert |Origins([cs[1]])| == zeros;
    assert StatementsFor([cs[1]]) == [];
    assert Origins(cs)[zeros] == OriginAt(cs[0], 0);
  }

  lemma {:induction false} MovedBit(bit: nat, zeros: nat, w: Bits)
    requires bit < 64 && bit in w && bit < zeros
    ensures zeros in Operand(OrMasked(Shl(Low(1), bit), bit - zeros), w)
  {
    assert bit in w * Shl(Low(1), bit);
  }

  /** A masked word of a short format has no bit beyond 31. */
  lemma {:induction false} BeyondType(mask: Word, rightShift: int, w: Bits, formatWidth: nat, resultBits: nat, p: nat)
    requires p in Operand(OrMasked(mask, rightShift), w) && formatWidth <= 32 <= p
    ensures match TypedOperand(OrMasked(mask, rightShift), w, formatWidth, resultBits)
            case None => true
            case Some(x) => p !in x
  {
  }

  /** A single bit in front of 32 or more zeros: every word of a format of at most 32 bits that has the bit gets a wrong
      value or an undefined shift. */
  lemma {:induction false} TypedLoss(bit: nat, formatWidth: nat, zeros: nat, resultBits: nat, w: Bits)
    requires bit < formatWidth <= 32 <= zeros < resultBits <= 64 && Fits(w, formatWidth) && bit in w
    ensures Placed(BitOverZeros(bit, zeros))
    ensures RunTyped(StatementsFor(BitOverZeros(bit, zeros)), w, formatWidth, resultBits) != Some(ValueOf(Origins(BitOverZeros(bit, zeros)), w))
  {
    OneStatement(bit, zeros);
    MovedBit(bit, zeros, w);
    var mask: Word := Shl(Low(1), bit);
    BeyondType(mask, bit - zeros, w, formatWidth, resultBits, zeros);
    TypedCons(OrMasked(mask, bit - zeros), [], w, formatWidth, resultBits);
    assert Reads(Origins(BitOverZeros(bit, zeros)), w, zeros);
  }

  /** Every type has at least 32 bits. */
  lemma {:induction false} ShortWithin(cs: seq<Component>, formatWidth: nat)
    requires Placed(cs) && |Origins(cs)| <= 32
    ensures AllWithin(cs, formatWidth)
  {
    if cs != [] {
      ShortWithin(cs[1..], formatWidth);
      if cs[0].Literal? { ComponentRange(cs[0], {}, |Origins(cs[1..])|); }
    }
  }

  /** Every operand is an integer of at least 32 bits, so that nothing goes wrong in results of up to 32 bits. */
  lemma {:induction false} ShortRight(cs: seq<Component>, formatWidth: nat, resultBits: nat, w: Bits)
    requires Placed(cs) && InFormat(cs, formatWidth) && !OnlyZeros(cs) && |Origins(cs)| <= resultBits <= 32 && Fits(w, formatWidth)
    ensures RunTyped(StatementsFor(cs), w, formatWidth, resultBits) == Some(ValueOf(Origins(cs), w))
  {
    ShortWithin(cs, formatWidth);
    TypedIff(cs, formatWidth, resultBits);
  }

  /** No literal is an int: each is zero or has a bit beyond the low 31. */
  predicate LongLiterals(cs: seq<Component>) {
    forall k | 0 <= k < |cs| && cs[k].Literal? :: cs[k].value == {} || !Fits(cs[k].value, 31)
  }

  lemma {:induction false} WideWithin(cs: seq<Component>, formatWidth: nat)
    requires Placed(cs) && LongLiterals(cs) && formatWidth > 32 && |Origins(cs)| <= 64
    ensures AllWithin(cs, formatWidth) && !Spreads(cs, Low(formatWidth), formatWidth)
  {
    if cs != [] {
      assert forall k | 0 <= k < |cs[1..]| :: cs[1..][k] == cs[k + 1];
      WideWithin(cs[1..], formatWidth);
      if cs[0].Literal? { ComponentRange(cs[0], {}, |Origins(cs[1..])|); }
    }
  }

  /** Words of more than 32 bits and long literals are shifted in 64 bits, so that nothing goes wrong without short ones. */
  lemma {:induction false} WideRight(cs: seq<Component>, formatWidth: nat, resultBits: nat, w: Bits)
    requires Placed(cs) && InFormat(cs, formatWidth) && !OnlyZeros(cs) && LongLiterals(cs) && formatWidth > 32
    requires |Origins(cs)| <= resultBits <= 64 && Fits(w, formatWidth)
    ensures RunTyped(StatementsFor(cs), w, formatWidth, resultBits) == Some(ValueOf(Origins(cs), w))
  {
    WideWithin(cs, formatWidth);
    TypedIff(cs, formatWidth, resultBits);
  }

  /** A short literal with a one as bit 31: an int holds it, and in a result of 32 bits the value is right; with a constant
      zero above it the int fills the upper half of the longer result on every word. */
  lemma {:induction false} TopBit(value: Bits, width: nat, lower: seq<Component>, formatWidth: nat, resultBits: nat, w: Bits)
    requires 1 <= width <= 31 && Fits(value, width) && width - 1 in value
    requires Placed(lower) && |Origins(lower)| == 32 - width && Fits(w, formatWidth) && 32 < resultBits <= 64
    ensures var cs := [Literal(value, width, 31)] + lower;
            && Placed(cs) && RunTyped(StatementsFor(cs), w, formatWidth, 32) == Some(ValueOf(Origins(cs), w))
            && Placed([Literal({}, 1, 32)] + cs)
            && RunTyped(StatementsFor([Literal({}, 1, 32)] + cs), w, formatWidth, resultBits) !=
               Some(ValueOf(Origins([Literal({}, 1, 32)] + cs), w))
  {
    var top, zero := Literal(value, width, 31), Literal({}, 1, 32);
    var cs, long := [top] + lower, [zero] + ([top] + lower);
    assert cs[1..] == lower && long[1..] == cs;
    ShortWithin(cs, formatWidth);
    assert Spreads(cs, w, formatWidth) && Spreads(long, w, formatWidth) by { ComponentValueBit(top, w, 32 - width, 31); }
    WithinAt(cs, w, formatWidth, 32);
    WithinAt(long, w, formatWidth, resultBits);
    assert Origins(long)[32] == OriginAt(zero, 0);
    assert 32 in UpperBits(resultBits) && !Reads(Origins(long), w, 32);
  }

  lemma {:induction false} NextStatement(cs: seq<Component>, i: nat, ss: seq<Statement>)
    requires i < |cs| && Placed(cs[i..])
    ensures Placed(cs[i + 1..]) && Sound(cs[i]) && cs[i].position >= cs[i].width - 1
    ensures ss + StatementsFor(cs[i..]) ==
            (if cs[i].Literal? && cs[i].value == {} then ss else ss + [StatementFor(cs[i])]) + StatementsFor(cs[i + 1..])
  {
    assert cs[i..][0] == cs[i] && cs[i..][1..] == cs[i + 1..];
    assert ss + ([StatementFor(cs[i])] + StatementsFor(cs[i + 1..])) == (ss + [StatementFor(cs[i])]) + StatementsFor(cs[i + 1..]);
  }

  lemma {:induction false} StatementsRight(cs: seq<Component>, formatWidth: nat, resultBits: nat)
    requires Placed(cs)
    ensures StatementsFor(cs) != [] ==> forall w: Word :: RunStatements(StatementsFor(cs), w) == Some(ValueOf(Origins(cs), w))
    ensures InFormat(cs, formatWidth) && |Origins(cs)| <= resultBits <= 64 ==>
              (!OnlyZeros(cs) && TypesFit(cs, formatWidth, resultBits) <==>
               forall w: Bits | Fits(w, formatWidth) ::
                 RunTyped(StatementsFor(cs), w, formatWidth, resultBits) == Some(ValueOf(Origins(cs), w)))
  {
    forall w: Word | StatementsFor(cs) != []
      ensures RunStatements(StatementsFor(cs), w) == Some(ValueOf(Origins(cs), w))
    {
      StatementsCompute(cs, w);
      RunIsUnion(None, StatementsFor(cs), w);
      assert {} + AllOperands(StatementsFor(cs), w) == AllOperands(StatementsFor(cs), w);
    }
    if InFormat(cs, formatWidth) && |Origins(cs)| <= resultBits <= 64 { TypedIff(cs, formatWidth, resultBits); }
  }

  /** An overlay whose layout has been computed. */
  datatype Layout =
    Layout(name: string, isSigned: bool, mustBeExtracted: bool, declaredWidth: nat, mask: Bits, components: seq<Component>)
  {

    /** Complete layout of at most 64 bits: declared and computed widths are equal. */
    ghost predicate Valid() {
      && Placed(components)
      && declaredWidth == |Origins(components)| <= 64
      && mask == MaskOf(Origins(components))
      && mustBeExtracted == HasLiteral(components)
    }

    /** One component of the loop of GetValue. */
    static method AddValue(value: Bits, c: Component, input: Word) returns (next: Bits)
      requires Sound(c) && c.position >= c.width - 1
      ensures next == value + ComponentValue(c, input)
    {
      if c.Literal? {
        if c.value == {} {
          assert ComponentValue(c, input) == {} && value + {} == value;
          return value;
        }
        return value + Shl(c.value, c.position - c.width + 1);
      }
      var mask := Shl(Low(c.width), c.low);
      var diff := c.high - c.position;
      return value + Shift(input * mask, diff);
    }

    method GetValue(input: Word) returns (value: Bits)
      requires Valid()
      ensures value == ValueOf(Origins(components), input)
    {
      value := {};
      ghost var whole := ValueOf(Origins(components), input);
      AllContributions(components, input);
      assert components[0..] == components;
      for i := 0 to |components|
        invariant Placed(components[i..])
        invariant value + AllValues(components[i..], input) == whole
      {
        SplitFirst(components, i, input);
        JoinNext(value, ComponentValue(components[i], input), AllValues(components[i + 1..], input), whole);
        value := AddValue(value, components[i], input);
      }
    }

    method GetBitField(input: Bits) returns (bitfield: Bits)
      requires Valid()
      ensures bitfield == FieldOf(Origins(components), input)
    {
      bitfield := {};
      AllContributions(components, input);
      assert components[0..] == components;
      for i := 0 to |components|
        invariant Placed(components[i..])
        invariant bitfield + AllFields(components[i..], input) == FieldOf(Origins(components), input)
      {
        SplitFirst(components, i, input);
        var c := components[i];
        if c.Reference? {
          var shift := c.position - c.width + 1;
          var bits := Shr(input, shift) * Low(c.width);
          bitfield := bitfield + Shl(bits, c.low);
        }
      }
    }

    /** The emitted statements compute GetValue whenever at least one statement is emitted, and none is emitted
        exactly for an overlay of constant zeros. In the integer types of the emitted code that is so exactly when
        no component has bits beyond its type and no int fills bits above it that should not be ones. */
    method WriteSimpleValueExtractor(ghost formatWidth: nat, ghost resultBits: nat) returns (ss: seq<Statement>)
      requires Valid()
      ensures ss == [] <==> OnlyZeros(components)
      ensures ss != [] ==> forall w: Word :: RunStatements(ss, w) == Some(ValueOf(Origins(components), w))
      ensures InFormat(components, formatWidth) && declaredWidth <= resultBits <= 64 ==>
                (!OnlyZeros(components) && TypesFit(components, formatWidth, resultBits) <==>
                 forall w: Bits | Fits(w, formatWidth) :: RunTyped(ss, w, formatWidth, resultBits) == Some(ValueOf(Origins(components), w)))
    {
      ss := [];
      assert components[0..] == components;
      for i := 0 to |components|
        invariant Placed(components[i..]) && StatementsFor(components) == ss + StatementsFor(components[i..])
      {
        NextStatement(components, i, ss);
        var c := components[i];
        if c.Literal? {
          if c.value != {} {
            assert StatementFor(c) == OrLiteral(c.value, c.position - c.width + 1);
            ss := ss + [OrLiteral(c.value, c.position - c.width + 1)];
          }
        } else {
          assert StatementFor(c) == OrMasked(Shl(Low(c.width), c.low), c.high - c.position);
          ss := ss + [OrMasked(Shl(Low(c.width), c.low), c.high - c.position)];
        }
      }
      assert components[|components|..] == [] && ss + [] == ss;
      NoStatement(components);
      StatementsRight(components, formatWidth, resultBits);
    }
  }

  // ----- building an overlay -----

  /** A component as it was added: within its field or within the format. */
  predicate Drafted(c: Component, fields: map<string, Field>, formatWidth: nat) {
    match c
    case Literal(value, width, _) => Fits(value, width)
    case Reference(Some(f), high, low, width, _) =>
      f in fields && 0 <= low && high < fields[f].width && width == high - low + 1
    case Reference(None, high, low, width, _) => 0 <= low <= high < formatWidth && width == high - low + 1
  }

  /** Every reference has bits, and fewer than 64, so that a 64-bit one can be shifted by its width. */
  predicate Shiftable(cs: seq<Component>) {
    cs == [] || ((cs[0].Reference? ==> 0 < cs[0].width < 64) && Shiftable(cs[1..]))
  }

  predicate AllDrafted(cs: seq<Component>, fields: map<string, Field>, formatWidth: nat) {
    cs == [] || (Drafted(cs[0], fields, formatWidth) && AllDrafted(cs[1..], fields, formatWidth))
  }

  predicate HasLiteral(cs: seq<Component>) {
    cs != [] && (cs[0].Literal? || HasLiteral(cs[1..]))
  }

  /** Only an overlay with literal components has constant bits. */
  lemma {:induction false} NoLiteralIsConstantFree(cs: seq<Component>)
    requires Placed(cs) && !HasLiteral(cs)
    ensures ConstantFree(Origins(cs))
  {
    if cs != [] { NoLiteralIsConstantFree(cs[1..]); }
  }

  function TotalWidth(cs: seq<Component>): nat {
    if cs == [] then 0 else cs[0].width + TotalWidth(cs[1..])
  }

  /** The component at its position, with bounds relative to the format. */
  function Resolve(c: Component, fields: map<string, Field>, position: int): Component {
    match c
    case Literal(value, width, _) => Literal(value, width, position)
    case Reference(Some(f), high, low, width, _) =>
      var shift := if f in fields && high >= 0 then fields[f].low else 0;
      Reference(Some(f), high + shift, low + shift, width, position)
    case Reference(None, high, low, width, _) => Reference(None, high, low, width, position)
  }

  function ResolveAll(cs: seq<Component>, fields: map<string, Field>, position: int): (r: seq<Component>)
    ensures |r| == |cs|
  {
    if cs == [] then [] else [Resolve(cs[0], fields, position)] + ResolveAll(cs[1..], fields, position - cs[0].width)
  }

  /** Every field lies inside a format of at most 64 bits. */
  predicate FieldsInside(fields: map<string, Field>, formatWidth: nat) {
    formatWidth <= 64 && forall f | f in fields :: 0 <= fields[f].low && fields[f].low + fields[f].width <= formatWidth
  }

  lemma {:induction false} ResolvedComponent(c: Component, fields: map<string, Field>, formatWidth: nat, position: int)
    requires FieldsInside(fields, formatWidth) && Drafted(c, fields, formatWidth) && (c.Reference? ==> 0 < c.width < 64)
    ensures var r := Resolve(c, fields, position);
            Sound(r) && r.width == c.width && r.position == position && r.Literal? == c.Literal?
  {
  }

  lemma {:induction false} PlacedAbove(c: Component, rest: seq<Component>)
    requires Placed(rest) && Sound(c) && c.position == |Origins(rest)| + c.width - 1
    ensures Placed([c] + rest) && |Origins([c] + rest)| == |Origins(rest)| + c.width
    ensures HasLiteral([c] + rest) == (c.Literal? || HasLiteral(rest))
  {
    assert ([c] + rest)[1..] == rest;
  }

  lemma {:induction false} ResolveNext(cs: seq<Component>, fields: map<string, Field>)
    requires cs != []
    ensures TotalWidth(cs) == cs[0].width + TotalWidth(cs[1..])
    ensures ResolveAll(cs, fields, TotalWidth(cs) - 1) ==
            [Resolve(cs[0], fields, TotalWidth(cs) - 1)] + ResolveAll(cs[1..], fields, TotalWidth(cs[1..]) - 1)
    ensures HasLiteral(cs) == (cs[0].Literal? || HasLiteral(cs[1..]))
  {
  }

  /** The components fill as many value bits as the drafted ones, without gap, and are literals where these are. */
  predicate Lays(placed: seq<Component>, cs: seq<Component>) {
    Placed(placed) && |Origins(placed)| == TotalWidth(cs) && HasLiteral(placed) == HasLiteral(cs)
  }

  lemma {:induction false} LaysAbove(c: Component, rest: seq<Component>, cs: seq<Component>)
    requires cs != [] && Lays(rest, cs[1..]) && Sound(c)
    requires c.position == TotalWidth(cs) - 1 && c.width == cs[0].width && c.Literal? == cs[0].Literal?
    ensures Lays([c] + rest, cs)
  {
    PlacedAbove(c, rest);
  }

  lemma {:induction false} ResolvedLays(cs: seq<Component>, fields: map<string, Field>, formatWidth: nat)
    requires FieldsInside(fields, formatWidth) && AllDrafted(cs, fields, formatWidth) && Shiftable(cs)
    ensures Lays(ResolveAll(cs, fields, TotalWidth(cs) - 1), cs)
  {
    if cs != [] {
      ResolvedLays(cs[1..], fields, formatWidth);
      ResolvedComponent(cs[0], fields, formatWidth, TotalWidth(cs) - 1);
      ResolveNext(cs, fields);
      LaysAbove(Resolve(cs[0], fields, TotalWidth(cs) - 1), ResolveAll(cs[1..], fields, TotalWidth(cs[1..]) - 1), cs);
    }
  }

  /** When the widths add up, resolving places every component at the value bits it stands for. */
  lemma {:induction false} ResolvedIsPlaced(cs: seq<Component>, fields: map<string, Field>, formatWidth: nat)
    requires FieldsInside(fields, formatWidth) && AllDrafted(cs, fields, formatWidth) && Shiftable(cs)
    ensures Placed(ResolveAll(cs, fields, TotalWidth(cs) - 1))
    ensures |Origins(ResolveAll(cs, fields, TotalWidth(cs) - 1))| == TotalWidth(cs)
    ensures HasLiteral(ResolveAll(cs, fields, TotalWidth(cs) - 1)) == HasLiteral(cs)
  {
    ResolvedLays(cs, fields, formatWidth);
  }

  /** The origin is bit i of a component as it was added: of the named field, of the format, or of the literal. */
  predicate IsBit(o: Origin, c: Component, fields: map<string, Field>, i: nat) {
    match c
    case Literal(value, _, _) => o == Fixed(i in value)
    case Reference(Some(f), _, low, _, _) => f in fields && o.FromWord? && o.pos == fields[f].low + low + i
    case Reference(None, _, low, _, _) => o.FromWord? && o.pos == low + i
  }

  /** The value is made of the components as they were added, the first one leftmost. */
  predicate Spells(os: seq<Origin>, cs: seq<Component>, fields: map<string, Field>) {
    |os| == TotalWidth(cs) && forall k: nat, i: nat | k < |cs| && i < cs[k].width :: SpellsBit(os, cs, fields, k, i)
  }

  predicate SpellsBit(os: seq<Origin>, cs: seq<Component>, fields: map<string, Field>, k: nat, i: nat)
    requires k < |cs|
  {
    TotalWidth(cs[k + 1..]) + i < |os| && IsBit(os[TotalWidth(cs[k + 1..]) + i], cs[k], fields, i)
  }

  /** The origins of an overlay whose components are placed by their total width. */
  function DraftOrigins(cs: seq<Component>, fields: map<string, Field>): seq<Origin> {
    Origins(ResolveAll(cs, fields, TotalWidth(cs) - 1))
  }

  lemma {:induction false} ResolvedFirst(cs: seq<Component>, fields: map<string, Field>)
    requires cs != []
    ensures DraftOrigins(cs, fields) == DraftOrigins(cs[1..], fields) + ComponentOrigins(Resolve(cs[0], fields, TotalWidth(cs) - 1))
  {
    var rest := ResolveAll(cs[1..], fields, TotalWidth(cs[1..]) - 1);
    assert ([Resolve(cs[0], fields, TotalWidth(cs) - 1)] + rest)[1..] == rest;
  }

  lemma {:induction false} ResolvedLength(cs: seq<Component>, fields: map<string, Field>, formatWidth: nat)
    requires FieldsInside(fields, formatWidth) && AllDrafted(cs, fields, formatWidth) && Shiftable(cs)
    ensures |DraftOrigins(cs, fields)| == TotalWidth(cs)
  {
    ResolvedIsPlaced(cs, fields, formatWidth);
  }

  lemma {:induction false} SpellsLower(os: seq<Origin>, more: seq<Origin>, cs: seq<Component>, fields: map<string, Field>, k: nat, i: nat)
    requires 0 < k < |cs| && SpellsBit(os, cs[1..], fields, k - 1, i)
    ensures SpellsBit(os + more, cs, fields, k, i)
  {
    assert cs[1..][k..] == cs[k + 1..];
  }

  lemma {:induction false} SpellsFirst(os: seq<Origin>, more: seq<Origin>, cs: seq<Component>, fields: map<string, Field>, i: nat)
    requires cs != [] && |os| == TotalWidth(cs[1..]) && i < |more| && IsBit(more[i], cs[0], fields, i)
    ensures SpellsBit(os + more, cs, fields, 0, i)
  {
  }

  lemma {:induction false} ResolvedBit(cs: seq<Component>, fields: map<string, Field>, formatWidth: nat, k: nat, i: nat)
    requires FieldsInside(fields, formatWidth) && AllDrafted(cs, fields, formatWidth) && Shiftable(cs)
    requires k < |cs| && i < cs[k].width
    ensures SpellsBit(DraftOrigins(cs, fields), cs, fields, k, i)
  {
    var lower := DraftOrigins(cs[1..], fields);
    var upper := ComponentOrigins(Resolve(cs[0], fields, TotalWidth(cs) - 1));
    ResolvedFirst(cs, fields);
    if k > 0 {
      ResolvedBit(cs[1..], fields, formatWidth, k - 1, i);
      SpellsLower(lower, upper, cs, fields, k, i);
    } else {
      ResolvedLength(cs[1..], fields, formatWidth);
      ResolvedOrigin(cs[0], fields, formatWidth, TotalWidth(cs) - 1, i);
      SpellsFirst(lower, upper, cs, fields, i);
    }
  }

  lemma {:induction false} ResolvedOrigin(c: Component, fields: map<string, Field>, formatWidth: nat, position: int, i: nat)
    requires FieldsInside(fields, formatWidth) && Drafted(c, fields, formatWidth) && (c.Reference? ==> 0 < c.width < 64) && i < c.width
    ensures var r := Resolve(c, fields, position); r.width == c.width && IsBit(ComponentOrigins(r)[i], c, fields, i)
  {
    ResolvedComponent(c, fields, formatWidth, position);
  }

  lemma {:induction false} ResolvedSpells(cs: seq<Component>, fields: map<string, Field>, formatWidth: nat)
    requires FieldsInside(fields, formatWidth) && AllDrafted(cs, fields, formatWidth) && Shiftable(cs)
    ensures Spells(DraftOrigins(cs, fields), cs, fields)
  {
    ResolvedLength(cs, fields, formatWidth);
    forall k: nat, i: nat | k < |cs| && i < cs[k].width
      ensures SpellsBit(DraftOrigins(cs, fields), cs, fields, k, i)
    {
      ResolvedBit(cs, fields, formatWidth, k, i);
    }
  }

  lemma {:induction false} AppendComponent(cs: seq<Component>, c: Component, fields: map<string, Field>, formatWidth: nat)
    ensures AllDrafted(cs + [c], fields, formatWidth) <==> AllDrafted(cs, fields, formatWidth) && Drafted(c, fields, formatWidth)
    ensures TotalWidth(cs + [c]) == TotalWidth(cs) + c.width
    ensures HasLiteral(cs + [c]) == (HasLiteral(cs) || c.Literal?)
  {
    var all := cs + [c];
    if cs == [] {
      assert all[1..] == [];
    } else {
      AppendComponent(cs[1..], c, fields, formatWidth);
      assert all[1..] == cs[1..] + [c];
    }
  }

  function WordBits(c: Component): Bits {
    match c
    case Literal(_, _, _) => {}
    case Reference(_, _, low, width, _) => if low < 0 then {} else Shl(Low(width), low)
  }

  /** The mask after adding the word bits of all components to it. */
  function AddWordBits(mask: Bits, cs: seq<Component>): Bits
    decreases cs
  {
    if cs == [] then mask else AddWordBits(mask + WordBits(cs[0]), cs[1..])
  }

  lemma {:induction false} WordBitsAreMask(mask: Bits, cs: seq<Component>)
    ensures AddWordBits(mask, cs) == mask + MaskOf(Origins(cs))
    decreases cs
  {
    if cs != [] {
      WordBitsAreMask(mask + WordBits(cs[0]), cs[1..]);
      MaskAppend(Origins(cs[1..]), ComponentOrigins(cs[0]));
      ComponentMask(cs[0]);
    }
  }

  lemma {:induction false} ComponentMask(c: Component)
    ensures MaskOf(ComponentOrigins(c)) == WordBits(c)
  {
    forall p: nat | p in WordBits(c)
      ensures p in MaskOf(ComponentOrigins(c))
    {
      assert ComponentOrigins(c)[p - c.low] == FromWord(p);
    }
  }

  /** The layout is valid, and its value is made of the bits that the components name. */
  ghost predicate Completes(layout: Layout, cs: seq<Component>, fields: map<string, Field>) {
    layout.Valid() && Spells(Origins(layout.components), cs, fields)
  }

  /** A complete overlay of known fields becomes such a layout. */
  lemma {:induction false} CompleteLayout(name: string, isSigned: bool, cs: seq<Component>, fields: map<string, Field>, formatWidth: nat)
    requires FieldsInside(fields, formatWidth) && AllDrafted(cs, fields, formatWidth) && Shiftable(cs) && TotalWidth(cs) <= 64
    ensures var resolved := ResolveAll(cs, fields, TotalWidth(cs) - 1);
            Completes(Layout(name, isSigned, HasLiteral(cs), TotalWidth(cs), AddWordBits({}, resolved), resolved), cs, fields)
  {
    ResolvedSpells(cs, fields, formatWidth);
    ResolvedIsPlaced(cs, fields, formatWidth);
    WordBitsAreMask({}, ResolveAll(cs, fields, TotalWidth(cs) - 1));
  }

  lemma {:induction false} MaskAppend(a: seq<Origin>, b: seq<Origin>)
    ensures MaskOf(a + b) == MaskOf(a) + MaskOf(b)
  {
    forall p: nat | p in MaskOf(b)
      ensures p in MaskOf(a + b)
    {
      var j: nat :| j < |b| && b[j].FromWord? && b[j].pos == p;
      assert (a + b)[|a| + j] == FromWord(p);
    }
    forall p: nat | p in MaskOf(a)
      ensures p in MaskOf(a + b)
    {
      var j: nat :| j < |a| && a[j].FromWord? && a[j].pos == p;
      assert (a + b)[j] == FromWord(p);
    }
  }

  predicate Inside(r: BitRange, limit: nat) {
    0 <= r.last <= r.first < limit
  }

  predicate AllInside(ranges: seq<BitRange>, limit: nat) {
    ranges == [] || (Inside(ranges[0], limit) && AllInside(ranges[1..], limit))
  }

  function RangeReference(field: Option<string>, r: BitRange): Component
    requires r.last <= r.first
  {
    Reference(field, r.first, r.last, r.first - r.last + 1, -1)
  }

  /** The components added for the bit ranges before the first bad one. */
  function References(field: Option<string>, ranges: seq<BitRange>, limit: nat): seq<Component> {
    if ranges == [] || !Inside(ranges[0], limit) then []
    else [RangeReference(field, ranges[0])] + References(field, ranges[1..], limit)
  }

  /** The added components name bits last to first of their ranges, in order; only a range that is not inside the field or
      the format ends them early. */
  lemma {:induction false} ReferencesName(field: Option<string>, ranges: seq<BitRange>, limit: nat)
    ensures var added := References(field, ranges, limit);
            && |added| <= |ranges|
            && (forall k | 0 <= k < |added| ::
                  && 0 <= ranges[k].last <= ranges[k].first < limit
                  && added[k] == Reference(field, ranges[k].first, ranges[k].last, ranges[k].first - ranges[k].last + 1, -1))
            && (|added| < |ranges| ==> !(0 <= ranges[|added|].last <= ranges[|added|].first < limit))
            && (AllInside(ranges, limit) <==> |added| == |ranges|)
  {
    if ranges != [] && Inside(ranges[0], limit) {
      ReferencesName(field, ranges[1..], limit);
      assert forall k | 1 <= k < |ranges| :: ranges[k] == ranges[1..][k - 1];
    }
  }

  lemma {:induction false} NextResolved(cs: seq<Component>, i: nat, fields: map<string, Field>, position: int, placed: seq<Component>)
    requires i < |cs|
    ensures var todo, c := ResolveAll(cs[i..], fields, position), Resolve(cs[i], fields, position);
            && todo != [] && todo[0] == c && todo[1..] == ResolveAll(cs[i + 1..], fields, position - c.width)
            && placed + todo == (placed + [c]) + todo[1..]
  {
    assert cs[i..][0] == cs[i] && cs[i..][1..] == cs[i + 1..];
  }

  /** Walks the components from the left, giving each its position and collecting its word bits. */
  method PlaceComponents(cs: seq<Component>, fields: map<string, Field>, first: int, mask: Bits)
    returns (placed: seq<Component>, bits: Bits)
    ensures placed == ResolveAll(cs, fields, first) && bits == AddWordBits(mask, placed)
  {
    placed, bits := [], mask;
    var position := first;
    ghost var todo := ResolveAll(cs, fields, position);
    ghost var resolved := todo;
    assert cs[0..] == cs;
    for i := 0 to |cs|
      invariant todo == ResolveAll(cs[i..], fields, position)
      invariant resolved == placed + todo
      invariant AddWordBits(bits, todo) == AddWordBits(mask, resolved)
    {
      var c := Resolve(cs[i], fields, position);
      NextResolved(cs, i, fields, position, placed);
      placed := placed + [c];
      if c.Reference? {
        bits := bits + WordBits(c);
      } else {
        assert bits + {} == bits;
      }
      position := position - c.width;
      todo := todo[1..];
    }
    assert cs[|cs|..] == [];
  }

  /** An overlay while its format is being read. */
  class Overlay {
    const name: string
    const isSigned: bool
    const declaredWidth: nat
    const formatWidth: nat
    var computedWidth: nat
    var mask: Bits
    var mustBeExtracted: bool
    var highLowComputed: bool
    var componentVec: seq<Component>

    constructor (name: string, isSigned: bool, width: nat, formatWidth: nat)
      ensures this.name == name && this.isSigned == isSigned
      ensures declaredWidth == width && this.formatWidth == formatWidth
      ensures componentVec == [] && computedWidth == 0 && mask == {} && !mustBeExtracted && !highLowComputed
    {
      this.name, this.isSigned := name, isSigned;
      this.declaredWidth, this.formatWidth := width, formatWidth;
      computedWidth, mask, mustBeExtracted, highLowComputed, componentVec := 0, {}, false, false, [];
    }

    /** Components have been added but not placed. */
    ghost predicate Drafting(fields: map<string, Field>)
      reads this
    {
      && !highLowComputed && mask == {}
      && AllDrafted(componentVec, fields, formatWidth)
      && computedWidth == TotalWidth(componentVec)
      && mustBeExtracted == HasLiteral(componentVec)
    }

    method Append(c: Component, ghost fields: map<string, Field>)
      requires Drafting(fields) && Drafted(c, fields, formatWidth)
      modifies this
      ensures Drafting(fields)
      ensures componentVec == old(componentVec) + [c]
    {
      AppendComponent(componentVec, c, fields, formatWidth);
      componentVec := componentVec + [c];
      computedWidth := computedWidth + c.width;
      mustBeExtracted := mustBeExtracted || c.Literal?;
    }

    method AddBitConstant(value: Bits, width: nat, ghost fields: map<string, Field>)
      requires Drafting(fields) && Fits(value, width)
      modifies this
      ensures Drafting(fields)
      ensures componentVec == old(componentVec) + [Literal(value, width, -1)]
    {
      Append(Literal(value, width, -1), fields);
    }

    method AddFieldReference(fieldName: string, fields: map<string, Field>) returns (status: Result<()>)
      requires Drafting(fields)
      modifies this
      ensures Drafting(fields)
      ensures status == if fieldName in fields then Ok(()) else Err(Internal)
      ensures componentVec == old(componentVec) +
                if fieldName in fields
                then [Reference(Some(fieldName), fields[fieldName].width - 1, 0, fields[fieldName].width, -1)] else []
    {
      if fieldName !in fields {
        return Err(Internal);
      }
      var width: int := fields[fieldName].width;
      Append(Reference(Some(fieldName), width - 1, 0, width, -1), fields);
      return Ok(());
    }

    /** Adds the bit ranges of a field (or of the format) in order; the first bad range stops with an
        error and the components of the ranges before it stay. */
    method AddReferences(field: Option<string>, ranges: seq<BitRange>, fields: map<string, Field>) returns (status: Result<()>)
      requires Drafting(fields)
      modifies this
      ensures Drafting(fields)
      ensures field.Some? && field.value !in fields ==> status == Err(Internal) && componentVec == old(componentVec)
      ensures field.Some? ==> field.value !in fields || AddsRanges(old(componentVec), status, field, ranges, fields[field.value].width)
      ensures field.None? ==> AddsRanges(old(componentVec), status, field, ranges, formatWidth)
    {
      if field.Some? && field.value !in fields {
        return Err(Internal);
      }
      var limit := if field.None? then formatWidth else fields[field.value].width;
      assert ranges[0..] == ranges;
      for i := 0 to |ranges|
        invariant Drafting(fields)
        invariant AllInside(ranges, limit) <==> AllInside(ranges[i..], limit)
        invariant old(componentVec) + References(field, ranges, limit) == componentVec + References(field, ranges[i..], limit)
      {
        var r := ranges[i];
        assert ranges[i..][0] == r && ranges[i..][1..] == ranges[i + 1..];
        if r.first < 0 || r.first >= limit || r.last < 0 || r.last >= limit || r.first - r.last + 1 <= 0 {
          return Err(Internal);
        }
        Append(RangeReference(field, r), fields);
      }
      return Ok(());
    }

    ghost predicate AddsRanges(before: seq<Component>, status: Result<()>, field: Option<string>, ranges: seq<BitRange>, limit: nat)
      reads this
    {
      && status == (if AllInside(ranges, limit) then Ok(()) else Err(Internal))
      && componentVec == before + References(field, ranges, limit)
    }

    /** Refuses the overlay unless its components are together as wide as declared. */
    method CheckWidth(ghost fields: map<string, Field>) returns (status: Result<()>)
      requires Drafting(fields)
      ensures status == if TotalWidth(componentVec) == declaredWidth then Ok(()) else Err(Internal)
    {
      return if computedWidth != declaredWidth then Err(Internal) else Ok(());
    }

    function GetLayout(): Layout
      reads this
    {
      Layout(name, isSigned, mustBeExtracted, declaredWidth, mask, componentVec)
    }

    /** The components are drafted, of at most 63 bits each for references, and together as wide as declared. */
    ghost predicate IsComplete(fields: map<string, Field>)
      reads this
    {
      Drafting(fields) && Shiftable(componentVec) && FieldsInside(fields, formatWidth) && computedWidth == declaredWidth <= 64
    }

    /** Places the components and collects the word bits referred to; a second call does nothing. An overlay as wide
        as declared has a valid layout then, and its value is made of the bits that its components name. */
    method ComputeHighLow(fields: map<string, Field>)
      modifies `highLowComputed, `componentVec, `mask
      ensures highLowComputed
      ensures old(highLowComputed) ==> unchanged(this)
      ensures old(IsComplete(fields)) ==> Completes(GetLayout(), old(componentVec), fields)
      ensures !old(highLowComputed) ==>
                && componentVec == ResolveAll(old(componentVec), fields, declaredWidth - 1)
                && mask == AddWordBits(old(mask), componentVec)
    {
      if highLowComputed {
        return;
      }
      ghost var cs := componentVec;
      ghost var complete := IsComplete(fields);
      highLowComputed := true;
      componentVec, mask := PlaceComponents(componentVec, fields, declaredWidth - 1, mask);
      if complete {
        CompleteLayout(name, isSigned, cs, fields, formatWidth);
        assert GetLayout() == Layout(name, isSigned, HasLiteral(cs), TotalWidth(cs), AddWordBits({}, componentVec), componentVec);
      }
    }

    /** The value of the overlay in a word; an overlay that is not as wide as declared has none. */
    method GetValue(input: Word) returns (value: Result<Bits>)
      requires declaredWidth == computedWidth ==> GetLayout().Valid()
      ensures value == if declaredWidth == computedWidth then Ok(ValueOf(Origins(componentVec), input)) else Err(Internal)
    {
      if declaredWidth != computedWidth {
        return Err(Internal);
      }
      var v := GetLayout().GetValue(input);
      return Ok(v);
    }
  }
}
