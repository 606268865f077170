/** Instruction encodings: constraints on fields and overlays, and the mask and value they amount to. */
module InstructionEncodings {
  import opened Words
  import opened Status
  import opened Overlays

  datatype Op = Eq | Ne | Lt | Le | Gt | Ge

  /** What a constraint reads from the instruction word. */
  datatype Source = FieldSource(field: Field) | OverlaySource(overlay: Layout) {

    function Name(): string {
      match this case FieldSource(f) => f.name case OverlaySource(o) => o.name
    }

    function Width(): nat {
      match this case FieldSource(f) => f.width case OverlaySource(o) => o.declaredWidth
    }

    function IsSigned(): bool {
      match this case FieldSource(f) => f.isSigned case OverlaySource(o) => o.isSigned
    }

    ghost predicate Valid() {
      match this
      case FieldSource(f) => 0 <= f.low && f.low + f.width <= 64
      case OverlaySource(o) => o.Valid() && RepeatsNoBit(Origins(o.components))
    }

    /** The unsigned value read from a word. */
    function Value(w: Bits): Bits
      requires Valid()
    {
      match this
      case FieldSource(f) => Slice(w, f.low, f.width)
      case OverlaySource(o) => ValueOf(Origins(o.components), w)
    }

    /** The word bits read. */
    function Mask(): Bits
      requires Valid()
    {
      match this
      case FieldSource(f) => Shl(Low(f.width), f.low)
      case OverlaySource(o) => o.mask
    }

    /** The word with value v in the bits read. */
    function Spread(v: Bits): Bits
      requires Valid()
    {
      match this
      case FieldSource(f) => Shl(v, f.low)
      case OverlaySource(o) => FieldOf(Origins(o.components), v)
    }

    /** An overlay with constant bits cannot be compared through a mask. */
    predicate MustBeExtracted() {
      OverlaySource? && overlay.mustBeExtracted
    }
  }

  datatype Operand = Number(value: Bits) | Read(source: Source)

  datatype Constraint = Constraint(op: Op, lhs: Source, rhs: Operand) {

    ghost predicate Valid() {
      && lhs.Valid()
      && match rhs case Number(v) => Fits(v, lhs.Width()) && Fits(v, 64) case Read(s) => s.Valid()
    }

    /** The constraint holds for the instruction word w. */
    predicate Holds(w: Bits)
      requires Valid()
    {
      Compare(op, lhs.Value(w), match rhs case Number(v) => v case Read(s) => s.Value(w))
    }
  }

  /** Unsigned comparison of two 64-bit values. */
  predicate Compare(op: Op, a: Bits, b: Bits) {
    var x, y := Num(a, 64), Num(b, 64);
    match op
    case Eq => x == y
    case Ne => x != y
    case Lt => x < y
    case Le => x <= y
    case Gt => x > y
    case Ge => x >= y
  }

  /** An equality of bits of the word with a number. */
  ghost predicate IsMasked(c: Constraint) {
    c.Valid() && c.op == Eq && c.rhs.Number? && !c.lhs.MustBeExtracted()
  }

  ghost predicate AllMasked(cs: seq<Constraint>) {
    forall i | 0 <= i < |cs| :: IsMasked(cs[i])
  }

  ghost predicate AllValid(cs: seq<Constraint>) {
    forall i | 0 <= i < |cs| :: cs[i].Valid()
  }

  ghost predicate AllHold(cs: seq<Constraint>, w: Bits)
    requires AllValid(cs)
  {
    forall i | 0 <= i < |cs| :: cs[i].Holds(w)
  }

  function MaskOfAll(cs: seq<Constraint>): Bits
    requires AllMasked(cs)
  {
    if cs == [] then {} else cs[0].lhs.Mask() + MaskOfAll(cs[1..])
  }

  function ValueOfAll(cs: seq<Constraint>): Bits
    requires AllMasked(cs)
  {
    if cs == [] then {} else cs[0].lhs.Spread(cs[0].rhs.value) + ValueOfAll(cs[1..])
  }

  lemma {:induction false} SourceBits(s: Source, v: Bits)
    requires s.Valid() && Fits(v, s.Width())
    ensures Fits(s.Mask(), 64) && s.Spread(v) <= s.Mask()
    ensures forall w: Bits :: Fits(w, 64) ==> Fits(s.Value(w), 64) && Fits(s.Value(w), s.Width())
  {
    match s
    case FieldSource(f) =>
    case OverlaySource(o) => OriginsBelow64(o.components);
  }

  lemma {:induction false} OriginsBelow64(cs: seq<Component>)
    requires Placed(cs)
    ensures Fits(MaskOf(Origins(cs)), 64)
  {
    if cs != [] {
      OriginsBelow64(cs[1..]);
      MaskAppend(Origins(cs[1..]), ComponentOrigins(cs[0]));
    }
  }

  /** A masked constraint holds exactly when the masked word equals the spread value. */
  lemma {:induction false} MaskedHolds(c: Constraint, w: Word)
    requires IsMasked(c)
    ensures c.Holds(w) <==> w * c.lhs.Mask() == c.lhs.Spread(c.rhs.value)
  {
    var v := c.rhs.value;
    SourceBits(c.lhs, v);
    NumInjective(c.lhs.Value(w), v, 64);
    match c.lhs
    case FieldSource(f) =>
      var mask := Shl(Low(f.width), f.low);
      if Slice(w, f.low, f.width) == v {
        forall p: nat
          ensures p in w * mask <==> p in Shl(v, f.low)
        {
          if p >= f.low { assert p - f.low in Slice(w, f.low, f.width) <==> p - f.low in v; }
        }
      }
      if w * mask == Shl(v, f.low) {
        forall j: nat
          ensures j in Slice(w, f.low, f.width) <==> j in v
        {
          assert j + f.low in w * mask <==> j + f.low in Shl(v, f.low);
        }
      }
    case OverlaySource(o) =>
      NoLiteralIsConstantFree(o.components);
      CompareMasked(Origins(o.components), w, v);
  }

  lemma {:induction false} MaskMember(cs: seq<Constraint>, p: nat)
    requires AllMasked(cs)
    ensures p in MaskOfAll(cs) <==> exists i :: 0 <= i < |cs| && p in cs[i].lhs.Mask()
    ensures p in ValueOfAll(cs) <==> exists i :: 0 <= i < |cs| && p in cs[i].lhs.Spread(cs[i].rhs.value)
  {
    if cs != [] {
      MaskMember(cs[1..], p);
      if i :| 0 <= i < |cs| && p in cs[i].lhs.Mask() {
        if i > 0 { assert cs[1..][i - 1] == cs[i]; }
      }
      if i :| 0 <= i < |cs| && p in cs[i].lhs.Spread(cs[i].rhs.value) {
        if i > 0 { assert cs[1..][i - 1] == cs[i]; }
      }
    }
  }

  lemma {:induction false} MasksFit(cs: seq<Constraint>)
    requires AllMasked(cs)
    ensures Fits(MaskOfAll(cs), 64) && ValueOfAll(cs) <= MaskOfAll(cs)
  {
    forall p: nat
      ensures p in MaskOfAll(cs) ==> p < 64
      ensures p in ValueOfAll(cs) ==> p in MaskOfAll(cs)
    {
      MaskMember(cs, p);
      if i :| 0 <= i < |cs| && p in cs[i].lhs.Mask() {
        SourceBits(cs[i].lhs, cs[i].rhs.value);
      }
      if i :| 0 <= i < |cs| && p in cs[i].lhs.Spread(cs[i].rhs.value) {
        SourceBits(cs[i].lhs, cs[i].rhs.value);
      }
    }
  }

  /** Two constraints ask for the same bits where they overlap. */
  ghost predicate AgreeOn(c: Constraint, d: Constraint)
    requires IsMasked(c) && IsMasked(d)
  {
    c.lhs.Spread(c.rhs.value) * d.lhs.Mask() == d.lhs.Spread(d.rhs.value) * c.lhs.Mask()
  }

  ghost predicate Agree(cs: seq<Constraint>)
    requires AllMasked(cs)
  {
    forall i, j | 0 <= i < |cs| && 0 <= j < |cs| :: AgreeOn(cs[i], cs[j])
  }

  lemma {:induction false} AgreeAt(cs: seq<Constraint>, i: nat)
    requires AllMasked(cs) && Agree(cs) && i < |cs|
    ensures ValueOfAll(cs) * cs[i].lhs.Mask() == cs[i].lhs.Spread(cs[i].rhs.value)
  {
    var c := cs[i];
    var want := c.lhs.Spread(c.rhs.value);
    SourceBits(c.lhs, c.rhs.value);
    forall p: nat
      ensures p in ValueOfAll(cs) * c.lhs.Mask() <==> p in want
    {
      MaskMember(cs, p);
      if p in ValueOfAll(cs) * c.lhs.Mask() {
        var j :| 0 <= j < |cs| && p in cs[j].lhs.Spread(cs[j].rhs.value);
        assert AgreeOn(c, cs[j]);
        assert p in cs[j].lhs.Spread(cs[j].rhs.value) * c.lhs.Mask();
      }
    }
  }

  /** Comparing the masked word with the combined value is the same as checking every constraint,
      when the constraints agree where they overlap. */
  lemma {:induction false} MaskedCompare(cs: seq<Constraint>, w: Word)
    requires AllMasked(cs) && Agree(cs)
    ensures w * MaskOfAll(cs) == ValueOfAll(cs) <==> AllHold(cs, w)
  {
    MasksFit(cs);
    forall i | 0 <= i < |cs|
      ensures cs[i].Holds(w) <==> w * cs[i].lhs.Mask() == ValueOfAll(cs) * cs[i].lhs.Mask()
      ensures cs[i].lhs.Mask() <= MaskOfAll(cs)
    {
      MaskedHolds(cs[i], w);
      AgreeAt(cs, i);
      forall p | p in cs[i].lhs.Mask() ensures p in MaskOfAll(cs) { MaskMember(cs, p); }
    }
    if w * MaskOfAll(cs) == ValueOfAll(cs) {
      forall i | 0 <= i < |cs|
        ensures cs[i].Holds(w)
      {
        assert w * cs[i].lhs.Mask() == (w * MaskOfAll(cs)) * cs[i].lhs.Mask();
      }
    }
    if AllHold(cs, w) {
      forall p: nat
        ensures p in w * MaskOfAll(cs) <==> p in ValueOfAll(cs)
      {
        MaskMember(cs, p);
        if p in MaskOfAll(cs) {
          var i :| 0 <= i < |cs| && p in cs[i].lhs.Mask();
          assert cs[i].Holds(w);
          assert p in w * cs[i].lhs.Mask() <==> p in ValueOfAll(cs) * cs[i].lhs.Mask();
        }
      }
    }
  }

  /** The mask-and-value comparison is right on every word exactly when the constraints agree. */
  lemma {:induction false} MaskedCompareIff(cs: seq<Constraint>)
    requires AllMasked(cs)
    ensures (forall w: Word :: w * MaskOfAll(cs) == ValueOfAll(cs) <==> AllHold(cs, w)) <==> Agree(cs)
  {
    if Agree(cs) {
      forall w: Word
        ensures w * MaskOfAll(cs) == ValueOfAll(cs) <==> AllHold(cs, w)
      {
        MaskedCompare(cs, w);
      }
    } else {
      MasksFit(cs);
      var w: Word := ValueOfAll(cs);
      assert w * MaskOfAll(cs) == w;
      if AllHold(cs, w) {
        forall i, j | 0 <= i < |cs| && 0 <= j < |cs|
          ensures AgreeOn(cs[i], cs[j])
        {
          assert cs[i].Holds(w) && cs[j].Holds(w);
          MaskedHolds(cs[i], w);
          MaskedHolds(cs[j], w);
        }
      }
    }
  }

  /** Neither mask nor value depends on the order in which constraints were added. */
  lemma {:induction false} OrderIrrelevant(cs: seq<Constraint>, ds: seq<Constraint>)
    requires AllMasked(cs) && AllMasked(ds) && multiset(cs) == multiset(ds)
    ensures MaskOfAll(cs) == MaskOfAll(ds) && ValueOfAll(cs) == ValueOfAll(ds)
  {
    SameMembers(cs, ds);
    SameMembers(ds, cs);
  }

  lemma {:induction false} SameMembers(cs: seq<Constraint>, ds: seq<Constraint>)
    requires AllMasked(cs) && AllMasked(ds) && multiset(cs) == multiset(ds)
    ensures MaskOfAll(cs) <= MaskOfAll(ds) && ValueOfAll(cs) <= ValueOfAll(ds)
  {
    forall p: nat
      ensures p in MaskOfAll(cs) ==> p in MaskOfAll(ds)
      ensures p in ValueOfAll(cs) ==> p in ValueOfAll(ds)
    {
      MaskMember(cs, p);
      MaskMember(ds, p);
      forall i | 0 <= i < |cs|
        ensures exists j :: 0 <= j < |ds| && ds[j] == cs[i]
      {
        assert cs[i] in multiset(cs);
        assert cs[i] in multiset(ds);
        assert cs[i] in ds;
      }
    }
  }

  /** Exactly the overlays with a literal component are compared by extracted value only. */
  lemma {:induction false} ExtractedIff(s: Source)
    requires s.Valid()
    ensures s.MustBeExtracted() <==> s.OverlaySource? && exists k :: 0 <= k < |s.overlay.components| && s.overlay.components[k].Literal?
  {
    if s.OverlaySource? { LiteralIff(s.overlay.components); }
  }

  lemma {:induction false} LiteralIff(cs: seq<Component>)
    ensures HasLiteral(cs) <==> exists k :: 0 <= k < |cs| && cs[k].Literal?
  {
    if cs != [] {
      LiteralIff(cs[1..]);
      if k :| 0 <= k < |cs[1..]| && cs[1..][k].Literal? { assert cs[k + 1].Literal?; }
      if k :| 0 < k < |cs| && cs[k].Literal? { assert cs[1..][k - 1].Literal?; }
    }
  }

  // ----- creating constraints -----

  /** The shifts 1 << width and 1 << (width - 1) on 32-bit ints are defined. */
  predicate ShiftsDefined(s: Source) {
    s.Width() <= 30 && (s.IsSigned() ==> s.Width() >= 1)
  }

  /** A field is preferred over an overlay of the same name; a field of 64 bits or more is refused. */
  function FindSource(fields: map<string, Field>, overlays: map<string, Layout>, name: string): Result<Source> {
    if name in fields then
      if fields[name].width >= 64 then Err(OutOfRange) else Ok(FieldSource(fields[name]))
    else if name in overlays then Ok(OverlaySource(overlays[name]))
    else Err(NotFound)
  }

  /** Unsigned values must fit; signed sources take only == and != with values in two's complement range. */
  function CheckValue(s: Source, op: Op, value: int): Result<()>
    requires ShiftsDefined(s)
  {
    if !s.IsSigned() then
      if value < 0 || value >= Pow2(s.Width()) then Err(OutOfRange) else Ok(())
    else if op != Eq && op != Ne then Err(InvalidArgument)
    else if value < 0 then
      if value < 0 - Pow2(s.Width() - 1) then Err(OutOfRange) else Ok(())
    else
      if value >= Pow2(s.Width() - 1) then Err(OutOfRange) else Ok(())
  }

  /** value & ((1 << width) - 1) */
  function Truncate(value: int, width: nat): Bits
    requires 0 - Pow2(width) <= value < Pow2(width)
  {
    BitsOf(if value < 0 then value + Pow2(width) else value, width)
  }

  /** A comparison of a named field or overlay with a number. */
  function CreateConstraint(fields: map<string, Field>, overlays: map<string, Layout>, op: Op, name: string, value: int): Result<Constraint>
    requires FindSource(fields, overlays, name).Ok? ==> ShiftsDefined(FindSource(fields, overlays, name).value)
  {
    match FindSource(fields, overlays, name)
    case Err(e) => Err(e)
    case Ok(s) =>
      match CheckValue(s, op, value)
      case Err(e) => Err(e)
      case Ok(_) => Ok(Constraint(op, s, Number(Truncate(value, s.Width()))))
  }

  /** A comparison of two named fields or overlays. */
  function CreateComparison(fields: map<string, Field>, overlays: map<string, Layout>, op: Op, lhs: string, rhs: string): Result<Constraint> {
    match FindSource(fields, overlays, lhs)
    case Err(e) => Err(e)
    case Ok(l) =>
      match FindSource(fields, overlays, rhs)
      case Err(e) => Err(e)
      case Ok(r) => Ok(Constraint(op, l, Read(r)))
  }

  /** The number a source stands for: two's complement when it is signed. */
  function Reading(s: Source, w: Bits): int
    requires s.Valid()
  {
    var n := Num(s.Value(w), 64);
    if s.IsSigned() && s.Width() > 0 && s.Width() - 1 in s.Value(w) then n - Pow2(s.Width()) else n
  }

  lemma {:induction false} TruncatedNumber(value: int, width: nat)
    requires width <= 64 && 0 - Pow2(width) <= value < Pow2(width)
    ensures Fits(Truncate(value, width), width)
    ensures Num(Truncate(value, width), 64) == if value < 0 then value + Pow2(width) else value
  {
    var u: nat := if value < 0 then value + Pow2(width) else value;
    NumBitsOf(u, width);
    NumWiden(Truncate(value, width), width, 64);
  }

  /** The top bit tells whether the number is in the upper half. */
  lemma {:induction false} TopHalf(x: Bits, width: nat)
    requires 1 <= width <= 64 && Fits(x, width)
    ensures Num(x, 64) < Pow2(width) == 2 * Pow2(width - 1)
    ensures width - 1 in x <==> Num(x, 64) >= Pow2(width - 1)
  {
    NumWiden(x, width, 64);
    NumBound(x, width);
    NumBound(x, width - 1);
  }

  /** Where the value is in range, the source has its low bits exactly when it stands for the value; for an unsigned source
      these bits are the number itself. */
  lemma {:induction false} TruncatedValue(s: Source, value: int, w: Word)
    requires s.Valid() && ShiftsDefined(s)
    requires if s.IsSigned() then 0 - Pow2(s.Width() - 1) <= value < Pow2(s.Width() - 1) else 0 <= value < Pow2(s.Width())
    ensures var v := Truncate(value, s.Width());
            && Fits(v, s.Width())
            && (Num(s.Value(w), 64) == Num(v, 64) <==> Reading(s, w) == value)
            && (!s.IsSigned() ==> Num(v, 64) == value && Reading(s, w) == Num(s.Value(w), 64))
  {
    var width := s.Width();
    SourceBits(s, {});
    TruncatedNumber(value, width);
    if s.IsSigned() {
      TopHalf(s.Value(w), width);
    }
  }

  /** A number that a source of this kind can have, in an operation that it may be used in. */
  predicate ValueInRange(isSigned: bool, width: nat, op: Op, value: int) {
    if isSigned then (op == Eq || op == Ne) && 0 - Pow2(width) <= 2 * value < Pow2(width)
    else 0 <= value < Pow2(width)
  }

  lemma {:induction false} Pow2Half(width: nat)
    requires width >= 1
    ensures Pow2(width) == 2 * Pow2(width - 1)
  {
  }

  /** What a constraint with a number is made of, and when there is none: an unknown name, a field of 64 bits or more, a value
      that the width does not hold, and an order of a signed source are refused. */
  lemma {:induction false} CreatedIff(fields: map<string, Field>, overlays: map<string, Layout>, op: Op, name: string, value: int)
    requires FindSource(fields, overlays, name).Ok? ==> ShiftsDefined(FindSource(fields, overlays, name).value)
    ensures CreateConstraint(fields, overlays, op, name, value).Ok? <==>
            if name in fields then fields[name].width < 64 && ValueInRange(fields[name].isSigned, fields[name].width, op, value)
            else name in overlays && ValueInRange(overlays[name].isSigned, overlays[name].declaredWidth, op, value)
    ensures CreateConstraint(fields, overlays, op, name, value).Ok? ==>
              CreateConstraint(fields, overlays, op, name, value).value.lhs ==
              if name in fields then FieldSource(fields[name]) else OverlaySource(overlays[name])
    ensures CreateConstraint(fields, overlays, op, name, value) == Err(NotFound) <==> name !in fields && name !in overlays
    ensures CreateConstraint(fields, overlays, op, name, value) == Err(InvalidArgument) <==>
            && op != Eq && op != Ne
            && if name in fields then fields[name].width < 64 && fields[name].isSigned else name in overlays && overlays[name].isSigned
    ensures CreateConstraint(fields, overlays, op, name, value).Err? ==>
              CreateConstraint(fields, overlays, op, name, value).error in {NotFound, InvalidArgument, OutOfRange}
  {
    if name in fields && fields[name].width < 64 && fields[name].isSigned { Pow2Half(fields[name].width); }
    if name !in fields && name in overlays && overlays[name].isSigned { Pow2Half(overlays[name].declaredWidth); }
  }

  /** A constraint with a number, which is checked on unsigned bits, holds exactly for the words in which the field or
      overlay, read with its own signedness, stands in the requested relation to the number. */
  lemma {:induction false} CreatedRelation(fields: map<string, Field>, overlays: map<string, Layout>, op: Op, name: string, value: int, w: Word)
    requires FindSource(fields, overlays, name).Ok? ==> ShiftsDefined(FindSource(fields, overlays, name).value)
    requires CreateConstraint(fields, overlays, op, name, value).Ok?
    requires FindSource(fields, overlays, name).value.Valid()
    ensures var c := CreateConstraint(fields, overlays, op, name, value).value;
            && c.Valid()
            && (op == Eq ==> (c.Holds(w) <==> Reading(c.lhs, w) == value))
            && (op == Ne ==> (c.Holds(w) <==> Reading(c.lhs, w) != value))
            && (op == Lt ==> (c.Holds(w) <==> Reading(c.lhs, w) < value))
            && (op == Le ==> (c.Holds(w) <==> Reading(c.lhs, w) <= value))
            && (op == Gt ==> (c.Holds(w) <==> Reading(c.lhs, w) > value))
            && (op == Ge ==> (c.Holds(w) <==> Reading(c.lhs, w) >= value))
  {
    TruncatedValue(FindSource(fields, overlays, name).value, value, w);
  }

  /** A comparison of two sources holds exactly when their unsigned values stand in the requested relation, in the order in
      which they are named. */
  lemma {:induction false} ComparisonRelation(fields: map<string, Field>, overlays: map<string, Layout>, op: Op, lhs: string, rhs: string, w: Word)
    ensures CreateComparison(fields, overlays, op, lhs, rhs).Ok? <==>
            && (if lhs in fields then fields[lhs].width < 64 else lhs in overlays)
            && (if rhs in fields then fields[rhs].width < 64 else rhs in overlays)
    ensures CreateComparison(fields, overlays, op, lhs, rhs).Err? ==>
              var wrong := if lhs in fields then fields[lhs].width >= 64 else lhs !in overlays;
              CreateComparison(fields, overlays, op, lhs, rhs) ==
              if (if wrong then lhs else rhs) in fields then Err(OutOfRange) else Err(NotFound)
    ensures CreateComparison(fields, overlays, op, lhs, rhs).Ok? && CreateComparison(fields, overlays, op, lhs, rhs).value.Valid() ==>
              var c := CreateComparison(fields, overlays, op, lhs, rhs).value;
              var l := if lhs in fields then FieldSource(fields[lhs]) else OverlaySource(overlays[lhs]);
              var r := if rhs in fields then FieldSource(fields[rhs]) else OverlaySource(overlays[rhs]);
              && l.Valid() && r.Valid()
              && var x, y := Num(l.Value(w), 64), Num(r.Value(w), 64);
                 && (op == Eq ==> (c.Holds(w) <==> x == y))
                 && (op == Ne ==> (c.Holds(w) <==> x != y))
                 && (op == Lt ==> (c.Holds(w) <==> x < y))
                 && (op == Le ==> (c.Holds(w) <==> x <= y))
                 && (op == Gt ==> (c.Holds(w) <==> x > y))
                 && (op == Ge ==> (c.Holds(w) <==> x >= y))
  {
  }

  /** A specialization: another opcode for the words that meet further conditions. */
  datatype Special = Special(name: string, formatName: string, conditions: seq<Constraint>)

  ghost predicate AllValidSpecials(ss: seq<Special>) {
    forall i | 0 <= i < |ss| :: AllValid(ss[i].conditions)
  }

  /** The first specialization whose conditions hold. */
  ghost function Chosen(ss: seq<Special>, w: Bits): Option<Special>
    requires AllValidSpecials(ss)
  {
    if ss == [] then None else if AllHold(ss[0].conditions, w) then Some(ss[0]) else Chosen(ss[1..], w)
  }

  /** A finished encoding: its constraints with the mask and value of the masked ones, and its specializations.
      Specializations are added late: specialized tells whether there were any when decision trees were built. */
  datatype Encoding = Encoding(name: string, formatName: string, equal: seq<Constraint>, extracted: seq<Constraint>,
                               other: seq<Constraint>, specialized: bool, specials: seq<Special>, mask: Word, value: Word)
  {
    /** Mask and value summarise the masked constraints, which agree where they overlap. */
    ghost predicate Valid() {
      && AllMasked(equal) && AllValid(extracted) && AllValid(other) && AllValidSpecials(specials)
      && mask == MaskOfAll(equal) && value == ValueOfAll(equal)
      && Agree(equal)
    }

    /** All constraints of the encoding hold for the instruction word. */
    ghost predicate Matches(w: Word)
      requires Valid()
    {
      AllHold(equal, w) && AllHold(extracted, w) && AllHold(other, w)
    }
  }

  /** The encoding with one equality on bits of the word and some comparisons. */
  function OpcodeAnd(name: string, op: Constraint, others: seq<Constraint>): (e: Encoding)
    requires IsMasked(op) && AllValid(others)
    ensures e.Valid()
  {
    SourceBits(op.lhs, op.rhs.value);
    SingleOpcode(op);
    Encoding(name, "", [op], [], others, false, [], op.lhs.Mask(), op.lhs.Spread(op.rhs.value))
  }

  lemma {:induction false} SingleOpcode(op: Constraint)
    requires IsMasked(op)
    ensures AllMasked([op]) && Agree([op])
    ensures MaskOfAll([op]) == op.lhs.Mask() && ValueOfAll([op]) == op.lhs.Spread(op.rhs.value)
  {
    assert [op][1..] == [];
  }

  lemma {:induction false} OpcodeMatches(name: string, op: Constraint, others: seq<Constraint>, w: Word)
    requires IsMasked(op) && AllValid(others)
    ensures OpcodeAnd(name, op, others).Matches(w) <==> op.Holds(w) && AllHold(others, w)
  {
    assert AllHold([op], w) ==> [op][0].Holds(w);
  }

  /** An encoding while constraints are added to it. */
  class InstructionEncoding {
    const name: string
    const formatName: string
    const fields: map<string, Field>
    const overlays: map<string, Layout>
    var equalConstraints: seq<Constraint>
    var equalExtractedConstraints: seq<Constraint>
    var otherConstraints: seq<Constraint>
    var maskSet: bool
    var mask: Bits
    var value: Bits

    constructor (name: string, formatName: string, fields: map<string, Field>, overlays: map<string, Layout>)
      requires forall n | n in fields :: fields[n].width < 64 ==> FieldSource(fields[n]).Valid()
      requires forall n | n in overlays :: OverlaySource(overlays[n]).Valid()
      ensures Valid()
      ensures this.name == name && this.formatName == formatName && this.fields == fields && this.overlays == overlays
      ensures equalConstraints == [] && equalExtractedConstraints == [] && otherConstraints == []
    {
      this.name, this.formatName, this.fields, this.overlays := name, formatName, fields, overlays;
      equalConstraints, equalExtractedConstraints, otherConstraints := [], [], [];
      maskSet, mask, value := false, {}, {};
    }

    /** The cached mask and value are right when they are marked as set; the accumulated value never
        holds a bit that no constraint asks for. */
    ghost predicate Valid()
      reads this
    {
      && (forall n | n in fields :: fields[n].width < 64 ==> FieldSource(fields[n]).Valid())
      && (forall n | n in overlays :: OverlaySource(overlays[n]).Valid())
      && AllMasked(equalConstraints) && AllValid(equalExtractedConstraints) && AllValid(otherConstraints)
      && value <= ValueOfAll(equalConstraints)
      && (maskSet ==> mask == MaskOfAll(equalConstraints) && value == ValueOfAll(equalConstraints))
    }

    method AddEqualConstraint(fieldName: string, v: int) returns (status: Result<()>)
      requires Valid()
      requires FindSource(fields, overlays, fieldName).Ok? ==> ShiftsDefined(FindSource(fields, overlays, fieldName).value)
      modifies this
      ensures Valid() && !maskSet && unchanged(`otherConstraints)
      ensures match CreateConstraint(fields, overlays, Eq, fieldName, v)
              case Err(e) => status == Err(e) && unchanged(`equalConstraints, `equalExtractedConstraints)
              case Ok(c) =>
                && status == Ok(())
                && equalConstraints == old(equalConstraints) + (if c.lhs.MustBeExtracted() then [] else [c])
                && equalExtractedConstraints == old(equalExtractedConstraints) + (if c.lhs.MustBeExtracted() then [c] else [])
    {
      maskSet := false;
      var res := CreateConstraint(fields, overlays, Eq, fieldName, v);
      if res.Err? {
        return Err(res.error);
      }
      var constraint := res.value;
      CreatedIsValid(fields, overlays, Eq, fieldName, v);
      if constraint.lhs.MustBeExtracted() {
        equalExtractedConstraints := equalExtractedConstraints + [constraint];
      } else {
        MaskAppended(equalConstraints, constraint);
        equalConstraints := equalConstraints + [constraint];
      }
      return Ok(());
    }

    method AddOtherConstraint(op: Op, fieldName: string, v: int) returns (status: Result<()>)
      requires Valid()
      requires FindSource(fields, overlays, fieldName).Ok? ==> ShiftsDefined(FindSource(fields, overlays, fieldName).value)
      modifies `otherConstraints
      ensures Valid()
      ensures match CreateConstraint(fields, overlays, op, fieldName, v)
              case Err(e) => status == Err(e) && unchanged(this)
              case Ok(c) => status == Ok(()) && otherConstraints == old(otherConstraints) + [c]
    {
      var res := CreateConstraint(fields, overlays, op, fieldName, v);
      if res.Err? {
        return Err(res.error);
      }
      CreatedIsValid(fields, overlays, op, fieldName, v);
      otherConstraints := otherConstraints + [res.value];
      return Ok(());
    }

    method AddOtherComparison(op: Op, lhs: string, rhs: string) returns (status: Result<()>)
      requires Valid()
      modifies `otherConstraints
      ensures Valid()
      ensures match CreateComparison(fields, overlays, op, lhs, rhs)
              case Err(e) => status == Err(e) && unchanged(this)
              case Ok(c) => status == Ok(()) && otherConstraints == old(otherConstraints) + [c]
    {
      var res := CreateComparison(fields, overlays, op, lhs, rhs);
      if res.Err? {
        return Err(res.error);
      }
      otherConstraints := otherConstraints + [res.value];
      return Ok(());
    }

    /** Recomputes the mask; the value keeps the bits of earlier computations, which is harmless because
        constraints are never removed. */
    method ComputeMaskAndValue()
      requires Valid()
      modifies `maskSet, `mask, `value
      ensures Valid() && maskSet
    {
      mask := {};
      assert equalConstraints[0..] == equalConstraints;
      for i := 0 to |equalConstraints|
        invariant AllMasked(equalConstraints[i..])
        invariant mask + MaskOfAll(equalConstraints[i..]) == MaskOfAll(equalConstraints)
        invariant value + ValueOfAll(equalConstraints[i..]) == ValueOfAll(equalConstraints)
      {
        var constraint := equalConstraints[i];
        assert equalConstraints[i..][1..] == equalConstraints[i + 1..];
        SourceBits(constraint.lhs, constraint.rhs.value);
        var m, v;
        match constraint.lhs {
          case FieldSource(field) =>
            m := Shl(Low(field.width), field.low);
            v := Shl(constraint.rhs.value, field.low);
          case OverlaySource(overlay) =>
            v := overlay.GetBitField(constraint.rhs.value);
            m := overlay.mask;
        }
        assert m * v == v && m == constraint.lhs.Mask();
        UnionAssociates(value, v, ValueOfAll(equalConstraints[i + 1..]));
        UnionAssociates(mask, m, MaskOfAll(equalConstraints[i + 1..]));
        value := value + m * v;
        mask := mask + m;
      }
      maskSet := true;
    }

    method GetMask() returns (m: Bits)
      requires Valid()
      modifies `maskSet, `mask, `value
      ensures Valid() && maskSet && m == MaskOfAll(equalConstraints)
    {
      if !maskSet {
        ComputeMaskAndValue();
      }
      m := mask;
    }

    method GetValue() returns (v: Bits)
      requires Valid()
      modifies `maskSet, `mask, `value
      ensures Valid() && maskSet && v == ValueOfAll(equalConstraints)
    {
      if !maskSet {
        ComputeMaskAndValue();
      }
      v := value;
    }

    /** All constraints that have been added hold for the word. */
    ghost predicate Satisfied(w: Word)
      requires Valid()
      reads this
    {
      AllHold(equalConstraints, w) && AllHold(equalExtractedConstraints, w) && AllHold(otherConstraints, w)
    }

    /** An encoding with the constraints that have been added, and no specializations yet. */
    ghost predicate IsFinished(e: Encoding)
      reads this
    {
      && e.name == name && e.formatName == formatName && !e.specialized && e.specials == []
      && e.equal == equalConstraints && e.extracted == equalExtractedConstraints && e.other == otherConstraints
    }

    /** The encoding as the decoder generator sees it; it is valid exactly when its masked constraints agree. */
    method Finish() returns (e: Encoding)
      requires Valid()
      modifies `maskSet, `mask, `value
      ensures Valid() && IsFinished(e)
      ensures e.Valid() <==> Agree(equalConstraints)
    {
      MasksFit(equalConstraints);
      var m := GetMask();
      var v := GetValue();
      e := Encoding(name, formatName, equalConstraints, equalExtractedConstraints, otherConstraints, false, [], m, v);
    }
  }

  lemma {:induction false} CreatedIsValid(fields: map<string, Field>, overlays: map<string, Layout>, op: Op, name: string, value: int)
    requires FindSource(fields, overlays, name).Ok? ==> ShiftsDefined(FindSource(fields, overlays, name).value)
    requires CreateConstraint(fields, overlays, op, name, value).Ok?
    requires FindSource(fields, overlays, name).value.Valid()
    ensures CreateConstraint(fields, overlays, op, name, value).value.Valid()
  {
    var s := FindSource(fields, overlays, name).value;
    NumBitsOf(if value < 0 then value + Pow2(s.Width()) else value, s.Width());
  }

  lemma {:induction false} MaskAppended(cs: seq<Constraint>, c: Constraint)
    requires AllMasked(cs) && IsMasked(c)
    ensures AllMasked(cs + [c])
    ensures ValueOfAll(cs) <= ValueOfAll(cs + [c])
  {
    if cs != [] {
      MaskAppended(cs[1..], c);
      assert (cs + [c])[1..] == cs[1..] + [c];
    }
  }
}
