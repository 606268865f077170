/** Instruction formats: placing fields, and the emitted extractors and inserters of formats of at most 64 bits. */
module Formats {
  import opened Words
  import opened Folding
  import opened Status
  import opened Overlays
  import opened InstructionEncodings

  /** A part of a format: a field, or a number of adjacent instances of another format. The position of the
      highest bit is -1 until the parts have been placed. */
  datatype Part =
    | FieldPart(field: Field, high: int)
    | FormatPart(alias: string, formatName: string, size: nat, high: int)

  /** The declared widths of all formats. */
  type FormatWidths = map<string, nat>

  predicate Known(part: Part, formats: FormatWidths) {
    part.FormatPart? ==> part.formatName in formats
  }

  /** size * width */
  function Times(width: nat, size: nat): nat {
    if size == 0 then 0 else Times(width, size - 1) + width
  }

  function PartWidth(part: Part, formats: FormatWidths): nat
    requires Known(part, formats)
  {
    match part
    case FieldPart(field, _) => field.width
    case FormatPart(_, formatName, size, _) => Times(formats[formatName], size)
  }

  lemma {:induction false} TimesMultiplies(width: nat, size: nat)
    ensures Times(width, size) == width * size
  {
    if size > 0 { TimesMultiplies(width, size - 1); }
  }

  /** The parts up to the first reference to an unknown format. */
  function KnownPrefix(parts: seq<Part>, formats: FormatWidths): (r: seq<Part>)
    ensures forall k | 0 <= k < |r| :: Known(r[k], formats)
    ensures |r| <= |parts|
  {
    if parts == [] || !Known(parts[0], formats) then [] else [parts[0]] + KnownPrefix(parts[1..], formats)
  }

  predicate AllKnown(parts: seq<Part>, formats: FormatWidths) {
    forall k | 0 <= k < |parts| :: Known(parts[k], formats)
  }

  function WidthOf(parts: seq<Part>, formats: FormatWidths): nat
    requires AllKnown(parts, formats)
  {
    if parts == [] then 0 else PartWidth(parts[0], formats) + WidthOf(parts[1..], formats)
  }

  /** The part with its highest bit at the given position. */
  function Place(part: Part, formats: FormatWidths, high: int): Part
    requires Known(part, formats)
  {
    match part
    case FieldPart(field, _) => FieldPart(field.(low := high - field.width + 1), high)
    case FormatPart(_, _, _, _) => part.(high := high)
  }

  function PlaceAll(parts: seq<Part>, formats: FormatWidths, high: int): (r: seq<Part>)
    requires AllKnown(parts, formats)
    ensures |r| == |parts| && AllKnown(r, formats)
  {
    if parts == [] then []
    else [Place(parts[0], formats, high)] + PlaceAll(parts[1..], formats, high - PartWidth(parts[0], formats))
  }

  function LowBit(part: Part, formats: FormatWidths): int
    requires Known(part, formats)
  {
    part.high - PartWidth(part, formats) + 1
  }

  /** The word bits of a placed part. */
  function PartBits(part: Part, formats: FormatWidths): Bits
    requires Known(part, formats)
  {
    if LowBit(part, formats) < 0 then {} else Shl(Low(PartWidth(part, formats)), LowBit(part, formats))
  }

  function AllBits(parts: seq<Part>, formats: FormatWidths): Bits
    requires AllKnown(parts, formats)
  {
    if parts == [] then {} else PartBits(parts[0], formats) + AllBits(parts[1..], formats)
  }

  predicate NoneBelow(parts: seq<Part>, formats: FormatWidths)
    requires AllKnown(parts, formats)
  {
    forall k | 0 <= k < |parts| :: LowBit(parts[k], formats) >= 0
  }

  predicate Apart(parts: seq<Part>, formats: FormatWidths)
    requires AllKnown(parts, formats)
  {
    forall j, k | 0 <= j < k < |parts| :: PartBits(parts[j], formats) * PartBits(parts[k], formats) == {}
  }

  /** Every bit of the word belongs to exactly one part, and no part sticks out below. */
  predicate Tiles(parts: seq<Part>, formats: FormatWidths, width: nat)
    requires AllKnown(parts, formats)
  {
    NoneBelow(parts, formats) && Apart(parts, formats) && AllBits(parts, formats) == Low(width)
  }

  lemma {:induction false} PlacedWidth(part: Part, formats: FormatWidths, high: int)
    requires Known(part, formats)
    ensures Known(Place(part, formats, high), formats) && PartWidth(Place(part, formats, high), formats) == PartWidth(part, formats)
    ensures LowBit(Place(part, formats, high), formats) == high - PartWidth(part, formats) + 1
  {
  }

  lemma {:induction false} BitInAll(parts: seq<Part>, formats: FormatWidths, p: nat)
    requires AllKnown(parts, formats)
    ensures p in AllBits(parts, formats) <==> exists k :: 0 <= k < |parts| && p in PartBits(parts[k], formats)
  {
    if parts != [] {
      BitInAll(parts[1..], formats, p);
      if k :| 0 <= k < |parts| && p in PartBits(parts[k], formats) {
        if k > 0 { assert parts[1..][k - 1] == parts[k]; }
      }
      if k :| 0 <= k < |parts[1..]| && p in PartBits(parts[1..][k], formats) {
        assert parts[k + 1] == parts[1..][k];
      }
    }
  }

  /** Where the k-th of the placed parts ends up. */
  lemma {:induction false} PlacedAt(parts: seq<Part>, formats: FormatWidths, high: int, k: nat)
    requires AllKnown(parts, formats) && k < |parts|
    ensures AllKnown(parts[..k], formats)
    ensures var placed := PlaceAll(parts, formats, high);
            placed[k] == Place(parts[k], formats, high - WidthOf(parts[..k], formats))
  {
    if k > 0 {
      PlacedAt(parts[1..], formats, high - PartWidth(parts[0], formats), k - 1);
      assert parts[..k][1..] == parts[1..][..k - 1] && parts[..k][0] == parts[0];
    }
  }

  /** The first part starts at the top and each further one below the part before it, which is as long as its field or as
      all its instances together. Nothing but the position of a part changes. */
  lemma {:induction false} PartsInOrder(parts: seq<Part>, formats: FormatWidths, high: int, k: nat)
    requires AllKnown(parts, formats) && k < |parts|
    ensures var placed := PlaceAll(parts, formats, high);
            && placed[k].high == (if k == 0 then high
                                  else placed[k - 1].high -
                                       match parts[k - 1]
                                       case FieldPart(field, _) => field.width
                                       case FormatPart(_, formatName, size, _) => formats[formatName] * size)
            && match parts[k]
               case FieldPart(field, _) => placed[k] == FieldPart(field.(low := placed[k].high - field.width + 1), placed[k].high)
               case FormatPart(alias, formatName, size, _) => placed[k] == FormatPart(alias, formatName, size, placed[k].high)
  {
    PlacedAt(parts, formats, high, k);
    if k == 0 {
      assert parts[..0] == [];
    } else {
      PlacedAt(parts, formats, high, k - 1);
      TotalSplit(parts[..k], formats);
      assert parts[..k][..k - 1] == parts[..k - 1];
      if parts[k - 1].FormatPart? { TimesMultiplies(formats[parts[k - 1].formatName], parts[k - 1].size); }
    }
  }

  /** Bits lo, ..., hi - 1. */
  function Between(lo: nat, hi: nat): (r: Bits)
    ensures forall p: nat {:trigger p in r} :: p in r <==> lo <= p < hi
  {
    Low(hi) - Low(lo)
  }

  lemma {:induction false} JoinBetween(a: nat, b: nat, c: nat)
    requires a <= b <= c
    ensures Between(b, c) + Between(a, b) == Between(a, c)
  {
  }

  /** The parts take up bits lo, ..., hi - 1; folded. */
  ghost predicate Occupy(parts: seq<Part>, formats: FormatWidths, lo: nat, hi: nat)
    requires AllKnown(parts, formats)
  {
    forall t: Token {:trigger Unfold(t)} :: t == Occupied && Unfold(t) ==> AllBits(parts, formats) == Between(lo, hi)
  }

  ghost predicate OccupyOne(part: Part, formats: FormatWidths, lo: nat, hi: nat)
    requires Known(part, formats)
  {
    forall t: Token {:trigger Unfold(t)} :: t == Occupied && Unfold(t) ==> PartBits(part, formats) == Between(lo, hi)
  }

  lemma {:induction false} PlacedRange(part: Part, formats: FormatWidths, high: int, lo: nat)
    requires Known(part, formats) && lo == high - PartWidth(part, formats) + 1
    ensures Known(Place(part, formats, high), formats) && OccupyOne(Place(part, formats, high), formats, lo, high + 1)
  {
    PlacedWidth(part, formats, high);
  }

  lemma {:induction false} OccupyCons(all: seq<Part>, first: Part, rest: seq<Part>, formats: FormatWidths, a: nat, b: nat, c: nat)
    requires AllKnown(all, formats) && Known(first, formats) && AllKnown(rest, formats) && all == [first] + rest && a <= b <= c
    requires OccupyOne(first, formats, b, c) && Occupy(rest, formats, a, b)
    ensures Occupy(all, formats, a, c)
  {
    assert Unfold(Occupied);
    assert all[1..] == rest;
    JoinBetween(a, b, c);
  }

  lemma {:induction false} OpenOccupy(parts: seq<Part>, formats: FormatWidths, lo: nat, hi: nat)
    requires AllKnown(parts, formats) && Occupy(parts, formats, lo, hi)
    ensures AllBits(parts, formats) == Between(lo, hi)
  {
    assert Unfold(Occupied);
  }

  lemma {:induction false} OccupyNothing(formats: FormatWidths, lo: nat)
    ensures Occupy([], formats, lo, lo)
  {
  }

  lemma {:induction false} PlaceCons(parts: seq<Part>, formats: FormatWidths, high: int)
    requires AllKnown(parts, formats) && parts != []
    ensures PlaceAll(parts, formats, high) == [Place(parts[0], formats, high)] + PlaceAll(parts[1..], formats, high - PartWidth(parts[0], formats))
    ensures WidthOf(parts, formats) == PartWidth(parts[0], formats) + WidthOf(parts[1..], formats)
  {
  }

  /** The bits of the placed parts are those from the top down to the total width. */
  lemma {:induction false} PlacedBits(parts: seq<Part>, formats: FormatWidths, high: int, lo: nat)
    requires AllKnown(parts, formats) && lo == high - WidthOf(parts, formats) + 1
    ensures Occupy(PlaceAll(parts, formats, high), formats, lo, high + 1)
  {
    if parts == [] {
      OccupyNothing(formats, lo);
    } else {
      var width := PartWidth(parts[0], formats);
      PlaceCons(parts, formats, high);
      PlacedRange(parts[0], formats, high, high - width + 1);
      PlacedBits(parts[1..], formats, high - width, lo);
      OccupyCons(PlaceAll(parts, formats, high), Place(parts[0], formats, high), PlaceAll(parts[1..], formats, high - width),
                 formats, lo, high - width + 1, high + 1);
    }
  }

  /** The lowest bit of the k-th placed part. */
  lemma {:induction false} PlacedLow(parts: seq<Part>, formats: FormatWidths, high: int, k: nat)
    requires AllKnown(parts, formats) && k < |parts|
    ensures LowBit(PlaceAll(parts, formats, high)[k], formats) >= high - WidthOf(parts, formats) + 1
    ensures k == |parts| - 1 ==> LowBit(PlaceAll(parts, formats, high)[k], formats) == high - WidthOf(parts, formats) + 1
  {
    PlacedAt(parts, formats, high, k);
    PlacedWidth(parts[k], formats, high - WidthOf(parts[..k], formats));
    WidthBetween(parts, formats, k, |parts|);
    assert parts[..|parts|] == parts;
    TotalSplit(parts, formats);
  }

  lemma {:induction false} WidthBetween(parts: seq<Part>, formats: FormatWidths, j: nat, k: nat)
    requires AllKnown(parts, formats) && j < k <= |parts|
    ensures AllKnown(parts[..j], formats) && AllKnown(parts[..k], formats)
    ensures WidthOf(parts[..j], formats) + PartWidth(parts[j], formats) <= WidthOf(parts[..k], formats)
  {
    assert parts[..k][0] == parts[0] && parts[..k][1..] == parts[1..][..k - 1];
    if j > 0 {
      assert parts[..j][1..] == parts[1..][..j - 1] && parts[..j][0] == parts[0];
      WidthBetween(parts[1..], formats, j - 1, k - 1);
    }
  }

  lemma {:induction false} PlacedApart(parts: seq<Part>, formats: FormatWidths, high: int, j: nat, k: nat)
    requires AllKnown(parts, formats) && j < k < |parts|
    ensures var placed := PlaceAll(parts, formats, high);
            PartBits(placed[j], formats) * PartBits(placed[k], formats) == {}
  {
    PlacedAt(parts, formats, high, j);
    PlacedAt(parts, formats, high, k);
    WidthBetween(parts, formats, j, k);
    PlacedWidth(parts[j], formats, high - WidthOf(parts[..j], formats));
    PlacedWidth(parts[k], formats, high - WidthOf(parts[..k], formats));
  }

  lemma {:induction false} WholeWord(lo: nat, width: nat)
    requires lo <= width
    ensures Between(lo, width) == Low(width) <==> lo == 0
  {
    if lo > 0 { assert 0 in Low(width); }
  }

  lemma {:induction false} TilesWhenEqual(parts: seq<Part>, formats: FormatWidths, width: nat)
    requires AllKnown(parts, formats) && WidthOf(parts, formats) == width
    ensures Tiles(PlaceAll(parts, formats, width - 1), formats, width)
  {
    var placed := PlaceAll(parts, formats, width - 1);
    forall j, k | 0 <= j < k < |placed|
      ensures PartBits(placed[j], formats) * PartBits(placed[k], formats) == {}
    {
      PlacedApart(parts, formats, width - 1, j, k);
    }
    forall k | 0 <= k < |placed| ensures LowBit(placed[k], formats) >= 0 { PlacedLow(parts, formats, width - 1, k); }
    PlacedBits(parts, formats, width - 1, 0);
    OpenOccupy(placed, formats, 0, width);
    WholeWord(0, width);
  }

  lemma {:induction false} GapBelow(parts: seq<Part>, formats: FormatWidths, width: nat)
    requires AllKnown(parts, formats) && WidthOf(parts, formats) < width
    ensures AllBits(PlaceAll(parts, formats, width - 1), formats) != Low(width)
  {
    PlacedBits(parts, formats, width - 1, width - WidthOf(parts, formats));
    OpenOccupy(PlaceAll(parts, formats, width - 1), formats, width - WidthOf(parts, formats), width);
    WholeWord(width - WidthOf(parts, formats), width);
  }

  lemma {:induction false} SticksOut(parts: seq<Part>, formats: FormatWidths, width: nat)
    requires AllKnown(parts, formats) && WidthOf(parts, formats) > width
    ensures !NoneBelow(PlaceAll(parts, formats, width - 1), formats)
  {
    PlacedLow(parts, formats, width - 1, |parts| - 1);
  }

  /** The placed parts tile the word exactly when their widths add up to the declared width. */
  lemma {:induction false} TilesIff(parts: seq<Part>, formats: FormatWidths, width: nat)
    requires AllKnown(parts, formats)
    ensures Tiles(PlaceAll(parts, formats, width - 1), formats, width) <==> WidthOf(parts, formats) == width
  {
    if WidthOf(parts, formats) == width {
      TilesWhenEqual(parts, formats, width);
    } else {
      if WidthOf(parts, formats) < width {
        GapBelow(parts, formats, width);
      } else {
        SticksOut(parts, formats, width);
      }
    }
  }

  lemma {:induction false} TotalSplit(parts: seq<Part>, formats: FormatWidths)
    requires AllKnown(parts, formats) && parts != []
    ensures var last := |parts| - 1;
            AllKnown(parts[..last], formats) && WidthOf(parts, formats) == WidthOf(parts[..last], formats) + PartWidth(parts[last], formats)
  {
    var last := |parts| - 1;
    if last > 0 {
      TotalSplit(parts[1..], formats);
      assert parts[..last][1..] == parts[1..][..last - 1] && parts[..last][0] == parts[0];
    }
  }

  // ----- computing the format -----

  class Format {
    const name: string
    const declaredWidth: nat
    const baseFormatName: Option<string>
    var fieldVec: seq<Part>
    var computedWidth: nat

    constructor (name: string, declaredWidth: nat, baseFormatName: Option<string>)
      ensures this.name == name && this.declaredWidth == declaredWidth && this.baseFormatName == baseFormatName
      ensures fieldVec == [] && computedWidth == 0
    {
      this.name, this.declaredWidth, this.baseFormatName := name, declaredWidth, baseFormatName;
      fieldVec, computedWidth := [], 0;
    }

    method AddPart(part: Part)
      modifies `fieldVec
      ensures fieldVec == old(fieldVec) + [part]
    {
      fieldVec := fieldVec + [part];
    }

    /** The base format, if there is one, is known and as wide as this format. */
    predicate BaseFits(formats: FormatWidths) {
      baseFormatName.Some? ==> baseFormatName.value in formats && formats[baseFormatName.value] == declaredWidth
    }

    /** The first i parts have been placed. */
    ghost predicate PlacedUpTo(parts: seq<Part>, formats: FormatWidths, i: nat)
      reads this
    {
      var known := KnownPrefix(parts, formats);
      && i <= |known|
      && fieldVec == PlaceAll(known, formats, declaredWidth - 1)[..i] + parts[i..]
      && computedWidth == WidthOf(known[..i], formats)
    }

    /** Places the next part. */
    method PlaceNext(formats: FormatWidths, ghost parts: seq<Part>, i: nat)
      requires PlacedUpTo(parts, formats, i) && i < |parts| && Known(parts[i], formats)
      modifies `fieldVec, `computedWidth
      ensures PlacedUpTo(parts, formats, i + 1)
    {
      ghost var known := KnownPrefix(parts, formats);
      KnownStop(parts, formats);
      NextPlaced(known, formats, declaredWidth - 1, i);
      Splice(PlaceAll(known, formats, declaredWidth - 1), parts, i);
      var part := Place(fieldVec[i], formats, declaredWidth - computedWidth - 1);
      fieldVec := fieldVec[i := part];
      computedWidth := computedWidth + PartWidth(part, formats);
    }

    /** Places the parts from the top down, up to a reference to an unknown format. */
    method PlaceParts(formats: FormatWidths) returns (complete: bool)
      requires computedWidth == 0
      modifies `fieldVec, `computedWidth
      ensures var known := KnownPrefix(old(fieldVec), formats);
              PlacedUpTo(old(fieldVec), formats, |known|) && (complete <==> |known| == |old(fieldVec)|)
    {
      ghost var parts := fieldVec;
      KnownStop(parts, formats);
      assert parts[0..] == parts;
      for i := 0 to |fieldVec|
        invariant |fieldVec| == |parts| && PlacedUpTo(parts, formats, i)
      {
        assert fieldVec[i] == parts[i];
        if !Known(fieldVec[i], formats) {
          return false;
        }
        PlaceNext(formats, parts, i);
      }
      return true;
    }

    /** Places the parts from the top down and checks that they fill the declared width. A second call finds
        the computed width and checks nothing. The outcome of laying out the overlays is a parameter. */
    method ComputeAndCheckFormatWidth(formats: FormatWidths, overlays: Result<()>) returns (status: Result<()>)
      modifies `fieldVec, `computedWidth
      ensures !BaseFits(formats) ==> status == Err(Internal) && unchanged(this)
      ensures BaseFits(formats) && old(computedWidth) != 0 ==> status == overlays && unchanged(this)
      ensures BaseFits(formats) && old(computedWidth) == 0 ==>
                var known := KnownPrefix(old(fieldVec), formats);
                && PlacedUpTo(old(fieldVec), formats, |known|)
                && status == if |known| < |old(fieldVec)| || computedWidth != declaredWidth then Err(Internal) else overlays
      ensures old(computedWidth) == 0 && status.Ok? ==> AllKnown(fieldVec, formats) && Tiles(fieldVec, formats, declaredWidth) && FieldsPlaced(fieldVec, formats)
    {
      if baseFormatName.Some? {
        if baseFormatName.value !in formats {
          return Err(Internal);
        }
        if formats[baseFormatName.value] != declaredWidth {
          return Err(Internal);
        }
      }
      if computedWidth == 0 {
        var complete := PlaceParts(formats);
        if !complete {
          return Err(Internal);
        }
        if computedWidth != declaredWidth {
          return Err(Internal);
        }
        assert fieldVec == PlaceAll(old(fieldVec), formats, declaredWidth - 1) && computedWidth == WidthOf(old(fieldVec), formats) by {
          KnownStop(old(fieldVec), formats);
          AllPlaced(old(fieldVec), fieldVec, formats, declaredWidth - 1);
        }
        TilesIff(old(fieldVec), formats, declaredWidth);
        PlacedFields(old(fieldVec), formats, declaredWidth - 1);
      }
      return overlays;
    }
  }

  lemma {:induction false} AllPlaced(parts: seq<Part>, placed: seq<Part>, formats: FormatWidths, high: int)
    requires var known := KnownPrefix(parts, formats); |known| == |parts| && placed == PlaceAll(known, formats, high)[..|known|] + parts[|known|..]
    ensures KnownPrefix(parts, formats) == parts && placed == PlaceAll(parts, formats, high)
    ensures KnownPrefix(parts, formats)[..|parts|] == parts
  {
    KnownStop(parts, formats);
  }

  /** Placing the known parts changes no width and makes no other part known. */
  lemma {:induction false} PlacedPrefix(parts: seq<Part>, placed: seq<Part>, formats: FormatWidths, high: int)
    requires var known := KnownPrefix(parts, formats); placed == PlaceAll(known, formats, high) + parts[|known|..]
    ensures |placed| == |parts| && |KnownPrefix(placed, formats)| == |KnownPrefix(parts, formats)|
    ensures WidthOf(KnownPrefix(placed, formats), formats) == WidthOf(KnownPrefix(parts, formats), formats)
  {
    if parts != [] && Known(parts[0], formats) {
      var known := KnownPrefix(parts, formats);
      PlacedWidth(parts[0], formats, high);
      assert known[1..] == KnownPrefix(parts[1..], formats) && parts[1..][|known| - 1..] == parts[|known|..];
      PlacedPrefix(parts[1..], placed[1..], formats, high - PartWidth(parts[0], formats));
    }
  }

  lemma {:induction false} WholePrefix(parts: seq<Part>, formats: FormatWidths)
    ensures |KnownPrefix(parts, formats)| == |parts| <==> AllKnown(parts, formats)
    ensures AllKnown(parts, formats) ==> KnownPrefix(parts, formats) == parts
  {
    KnownStop(parts, formats);
    if parts != [] && Known(parts[0], formats) {
      WholePrefix(parts[1..], formats);
      if AllKnown(parts[1..], formats) {
        forall k | 0 <= k < |parts| ensures Known(parts[k], formats) { assert k > 0 ==> parts[k] == parts[1..][k - 1]; }
      }
    }
  }

  /** All parts are known and as wide as the format. */
  predicate Fill(parts: seq<Part>, formats: FormatWidths, width: nat) {
    AllKnown(parts, formats) && WidthOf(parts, formats) == width
  }

  /** Checks a format twice. The second call gives the verdict of the first exactly when that is a pass or fails
      for another reason than the parts, or nothing of positive width comes before the first unknown format. */
  method CheckTwice(format: Format, formats: FormatWidths, overlays: Result<()>) returns (first: Result<()>, second: Result<()>)
    requires format.computedWidth == 0
    modifies format`fieldVec, format`computedWidth
    ensures first == if (match format.baseFormatName case None => true case Some(base) => base in formats && formats[base] == format.declaredWidth)
                        && Fill(old(format.fieldVec), formats, format.declaredWidth) then overlays else Err(Internal)
    ensures second == overlays || second == Err(Internal)
    ensures (first.Ok? <==> second.Ok?) <==>
            || Fill(old(format.fieldVec), formats, format.declaredWidth) || !format.BaseFits(formats) || overlays.Err?
            || WidthOf(KnownPrefix(old(format.fieldVec), formats), formats) == 0
  {
    ghost var parts := format.fieldVec;
    ghost var known := KnownPrefix(parts, formats);
    WholePrefix(parts, formats);
    first := format.ComputeAndCheckFormatWidth(formats, overlays);
    if format.BaseFits(formats) {
      assert PlaceAll(known, formats, format.declaredWidth - 1)[..|known|] == PlaceAll(known, formats, format.declaredWidth - 1);
      assert known[..|known|] == known;
      PlacedPrefix(parts, format.fieldVec, formats, format.declaredWidth - 1);
    }
    ghost var again := KnownPrefix(format.fieldVec, formats);
    assert again[..|again|] == again;
    second := format.ComputeAndCheckFormatWidth(formats, overlays);
  }

  lemma {:induction false} OneField(field: Field, formats: FormatWidths)
    ensures var parts := [FieldPart(field, -1)];
            AllKnown(parts, formats) && KnownPrefix(parts, formats) == parts && WidthOf(parts, formats) == field.width
  {
    var parts := [FieldPart(field, -1)];
    assert parts[1..] == [];
    WholePrefix(parts, formats);
  }

  /** A format whose only field does not fill it is refused once; asked again, it passes. */
  method SecondCallPasses(declaredWidth: nat, field: Field, formats: FormatWidths) returns (first: Result<()>, second: Result<()>)
    requires 0 < field.width != declaredWidth
    ensures first == Err(Internal) && second == Ok(())
  {
    var format := new Format("format", declaredWidth, None);
    format.AddPart(FieldPart(field, -1));
    OneField(field, formats);
    assert format.fieldVec == [FieldPart(field, -1)];
    first, second := CheckTwice(format, formats, Ok(()));
  }

  lemma {:induction false} OneRepeat(alias: string, formatName: string, size: nat, formats: FormatWidths)
    requires formatName in formats
    ensures var parts := [FormatPart(alias, formatName, size, -1)];
            AllKnown(parts, formats) && KnownPrefix(parts, formats) == parts && WidthOf(parts, formats) == formats[formatName] * size
  {
    var parts := [FormatPart(alias, formatName, size, -1)];
    assert parts[1..] == [];
    WholePrefix(parts, formats);
    TimesMultiplies(formats[formatName], size);
  }

  /** A format of nothing but adjacent instances of another one passes exactly when these fill it. */
  method RepeatedFormat(declaredWidth: nat, alias: string, formatName: string, size: nat, formats: FormatWidths) returns (status: Result<()>)
    requires formatName in formats
    ensures status == if formats[formatName] * size == declaredWidth then Ok(()) else Err(Internal)
  {
    var format := new Format("format", declaredWidth, None);
    format.AddPart(FormatPart(alias, formatName, size, -1));
    OneRepeat(alias, formatName, size, formats);
    assert format.fieldVec == [FormatPart(alias, formatName, size, -1)];
    assert Fill(format.fieldVec, formats, declaredWidth) <==> formats[formatName] * size == declaredWidth;
    status := format.ComputeAndCheckFormatWidth(formats, Ok(()));
  }

  /** Placed fields know their lowest bit. */
  predicate FieldsPlaced(parts: seq<Part>, formats: FormatWidths)
    requires AllKnown(parts, formats)
  {
    forall k | 0 <= k < |parts| && parts[k].FieldPart? :: parts[k].field.low == LowBit(parts[k], formats)
  }

  lemma {:induction false} PlacedFields(parts: seq<Part>, formats: FormatWidths, high: int)
    requires AllKnown(parts, formats)
    ensures FieldsPlaced(PlaceAll(parts, formats, high), formats)
  {
    var placed := PlaceAll(parts, formats, high);
    forall k | 0 <= k < |placed| && placed[k].FieldPart?
      ensures placed[k].field.low == LowBit(placed[k], formats)
    {
      PlacedAt(parts, formats, high, k);
    }
  }

  lemma {:induction false} Splice(placed: seq<Part>, parts: seq<Part>, i: nat)
    requires i < |placed| && i < |parts|
    ensures (placed[..i] + parts[i..])[i] == parts[i]
    ensures (placed[..i] + parts[i..])[i := placed[i]] == placed[..i + 1] + parts[i + 1..]
  {
  }

  lemma {:induction false} KnownStop(parts: seq<Part>, formats: FormatWidths)
    ensures var known := KnownPrefix(parts, formats);
            && (forall k | 0 <= k < |known| :: known[k] == parts[k])
            && (|known| < |parts| ==> !Known(parts[|known|], formats))
  {
    if parts != [] && Known(parts[0], formats) { KnownStop(parts[1..], formats); }
  }

  lemma {:induction false} NextPlaced(parts: seq<Part>, formats: FormatWidths, high: int, i: nat)
    requires AllKnown(parts, formats) && i < |parts|
    ensures AllKnown(parts[..i], formats) && AllKnown(parts[..i + 1], formats)
    ensures PlaceAll(parts, formats, high)[i] == Place(parts[i], formats, high - WidthOf(parts[..i], formats))
    ensures PartWidth(PlaceAll(parts, formats, high)[i], formats) == PartWidth(parts[i], formats)
    ensures WidthOf(parts[..i + 1], formats) == WidthOf(parts[..i], formats) + PartWidth(parts[i], formats)
  {
    PlacedAt(parts, formats, high, i);
    PlacedWidth(parts[i], formats, high - WidthOf(parts[..i], formats));
    TotalSplit(parts[..i + 1], formats);
    assert parts[..i + 1][..i] == parts[..i];
  }

  // ----- extractors and inserters -----

  function FieldMask(f: Field): Bits
    requires f.low >= 0
  {
    Shl(Low(f.width), f.low)
  }

  /** The emitted extractor of an unsigned field: shift and mask, without a shift at position 0. */
  function ExtractField(f: Field, word: Bits): Bits
    requires f.low >= 0
  {
    if f.low == 0 then word * Low(f.width) else Slice(word, f.low, f.width)
  }

  /** The emitted inserter: the bits of the field are cleared, then the shifted and masked value is put in. */
  function InsertField(f: Field, value: Bits, word: Bits): Bits
    requires f.low >= 0
  {
    (word - FieldMask(f)) + (if f.low == 0 then value else Shl(value, f.low)) * FieldMask(f)
  }

  lemma {:induction false} ExtractedBit(f: Field, word: Bits, i: nat)
    requires f.low >= 0
    ensures i in ExtractField(f, word) <==> i < f.width && i + f.low in word
  {
  }

  lemma {:induction false} InsertedBit(f: Field, value: Bits, word: Bits, p: nat)
    requires f.low >= 0
    ensures p in InsertField(f, value, word) <==> if f.low <= p < f.low + f.width then p - f.low in value else p in word
  {
  }

  /** Extracting an inserted field gives the value modulo 2^width. */
  lemma {:induction false} ExtractInserted(f: Field, value: Bits, word: Bits)
    requires f.low >= 0
    ensures ExtractField(f, InsertField(f, value, word)) == value * Low(f.width)
  {
    forall i: nat
      ensures i in ExtractField(f, InsertField(f, value, word)) <==> i in value * Low(f.width)
    {
      ExtractedBit(f, InsertField(f, value, word), i);
      InsertedBit(f, value, word, i + f.low);
    }
  }

  lemma {:induction false} ExtractInsertedNumber(f: Field, value: Bits, word: Bits, n: nat)
    requires f.low >= 0
    ensures Num(ExtractField(f, InsertField(f, value, word)), f.width + n) == Num(value, f.width + n) % Pow2(f.width)
  {
    ExtractInserted(f, value, word);
    NumShr(value, f.width, n);
  }

  /** Inserting what was extracted changes nothing. */
  lemma {:induction false} InsertExtracted(f: Field, word: Bits)
    requires f.low >= 0
    ensures InsertField(f, ExtractField(f, word), word) == word
  {
    forall p: nat
      ensures p in InsertField(f, ExtractField(f, word), word) <==> p in word
    {
      InsertedBit(f, ExtractField(f, word), word, p);
      if f.low <= p { ExtractedBit(f, word, p - f.low); }
    }
  }

  /** Inserting a part of a computed format changes no other field of it. */
  lemma {:induction false} OthersUnchanged(parts: seq<Part>, formats: FormatWidths, width: nat, j: nat, k: nat, value: Bits, word: Bits)
    requires AllKnown(parts, formats) && Tiles(parts, formats, width) && FieldsPlaced(parts, formats)
    requires j < |parts| && k < |parts| && j != k && parts[j].FieldPart? && parts[k].FieldPart?
    ensures parts[j].field.low >= 0 && parts[k].field.low >= 0
    ensures ExtractField(parts[k].field, InsertField(parts[j].field, value, word)) == ExtractField(parts[k].field, word)
  {
    var f, g := parts[j].field, parts[k].field;
    assert LowBit(parts[j], formats) >= 0 && LowBit(parts[k], formats) >= 0;
    assert PartBits(parts[j], formats) * PartBits(parts[k], formats) == {} by {
      if j < k { assert Apart(parts, formats); } else { assert PartBits(parts[k], formats) * PartBits(parts[j], formats) == {}; }
    }
    forall i: nat
      ensures i in ExtractField(g, InsertField(f, value, word)) <==> i in ExtractField(g, word)
    {
      ExtractedBit(g, InsertField(f, value, word), i);
      ExtractedBit(g, word, i);
      InsertedBit(f, value, word, i + g.low);
      if i < g.width {
        var p := i + g.low;
        assert p in PartBits(parts[k], formats);
        assert p !in PartBits(parts[j], formats) by { assert p !in PartBits(parts[j], formats) * PartBits(parts[k], formats); }
        assert !(f.low <= p < f.low + f.width);
      }
    }
  }

  // ----- signed fields -----

  /** The two's complement number of the low n bits. */
  function Signed(x: Bits, n: nat): int {
    if n > 0 && n - 1 in x then Num(x, n) - Pow2(n) else Num(x, n)
  }

  /** x >> s on a signed integer */
  function ShiftSigned(x: int, s: nat): int {
    x / Pow2(s)
  }

  /** The emitted extractor of a signed field: shifted up to the top of an integer of n bits and down again. */
  function ExtractSigned(f: Field, word: Bits, n: nat): int
    requires f.low >= 0 && f.width <= n
  {
    ShiftSigned(Signed(Shl(ExtractField(f, word), n - f.width), n), n - f.width)
  }

  lemma {:induction false} NumShl(x: Bits, s: nat, n: nat)
    ensures Num(Shl(x, s), s + n) == Pow2(s) * Num(x, n)
  {
    NumSplit(Shl(x, s), s, n);
    NumCongruent(Shl(x, s), {}, s);
    NumWiden({}, 0, s);
    forall i: nat | i < n ensures i in Shr(Shl(x, s), s) <==> i in x { assert (i + s) - s == i; }
    NumCongruent(Shr(Shl(x, s), s), x, n);
  }

  /** Shifting up and down again extends the sign. */
  lemma {:induction false} SignExtends(x: Bits, width: nat, s: nat)
    ensures ShiftSigned(Signed(Shl(x, s), s + width), s) == Signed(x, width)
  {
    NumShl(x, s, width);
    Pow2Add(s, width);
    if width > 0 {
      assert s + width - 1 in Shl(x, s) <==> width - 1 in x;
      Distribute(Pow2(s), Num(x, width) - Pow2(width), Pow2(width));
    }
    DivMod(Signed(Shl(x, s), s + width), Pow2(s), Signed(x, width), 0);
  }

  /** A signed field that was inserted is read back as the same number, if that number fits the field. */
  lemma {:induction false} SignedRoundTrip(f: Field, value: int, word: Bits, n: nat)
    requires f.low >= 0 && 0 < f.width <= n && 0 - Pow2(f.width - 1) <= value < Pow2(f.width - 1)
    ensures ExtractSigned(f, InsertField(f, Truncate(value, f.width), word), n) == value
  {
    var bits := Truncate(value, f.width);
    var u: nat := if value < 0 then value + Pow2(f.width) else value;
    NumBitsOf(u, f.width);
    ExtractInserted(f, bits, word);
    assert bits * Low(f.width) == bits;
    SignExtends(bits, f.width, n - f.width);
    NumBound(bits, f.width - 1);
  }

  lemma {:induction false} LowBitsSigned(x: Bits, value: Bits, width: nat, n: nat)
    requires width <= n && x * Low(width) == value
    ensures ShiftSigned(Signed(Shl(x, n - width), n), n - width) == Signed(value, width)
  {
    forall i: nat | i < width ensures i in x <==> i in value { assert i in x * Low(width) <==> i in value; }
    SignExtends(x, width, n - width);
    NumCongruent(x, value, width);
  }

  /** A signed overlay of the right type is extracted as its two's complement number: only the low bits of the result
      need to be right before the sign is extended. */
  lemma {:induction false} SignedOverlay(cs: seq<Component>, formatWidth: nat, w: Bits, n: nat)
    requires Placed(cs) && InFormat(cs, formatWidth) && Fits(w, formatWidth) && |Origins(cs)| <= n <= 64
    requires !OnlyZeros(cs) && TypesFit(cs, formatWidth, |Origins(cs)|)
    ensures var width := |Origins(cs)|;
            match RunTyped(StatementsFor(cs), w, formatWidth, n)
            case None => false
            case Some(result) => ShiftSigned(Signed(Shl(result, n - width), n), n - width) == Signed(ValueOf(Origins(cs), w), width)
  {
    var width, value := |Origins(cs)|, ValueOf(Origins(cs), w);
    TypedIff(cs, formatWidth, width);
    assert RunTyped(StatementsFor(cs), w, formatWidth, width) == Some(value);
    TypedLowBits(StatementsFor(cs), w, formatWidth, width, n);
    LowBitsSigned(RunTyped(StatementsFor(cs), w, formatWidth, n).value, value, width, n);
  }

  // ----- overlay inserters -----

  /** tmp = (value >> shift) & ((1 << width) - 1); inst_word |= tmp << low */
  datatype InsertStep = InsertStep(shift: nat, width: nat, low: nat)

  function StepBits(s: InsertStep, value: Bits): Bits {
    Shl(Shr(value, s.shift) * Low(s.width), s.low)
  }

  /** The steps of an inserter one after the other, on integers of any size. */
  function RunInserter(steps: seq<InsertStep>, value: Bits, word: Bits): Bits
    decreases steps
  {
    if steps == [] then word else RunInserter(steps[1..], value, word + StepBits(steps[0], value))
  }

  /** The steps for the references of an overlay; constants have none. */
  function StepsFor(cs: seq<Component>): seq<InsertStep>
    requires Placed(cs)
  {
    if cs == [] then []
    else if cs[0].Literal? then StepsFor(cs[1..])
    else [InsertStep(cs[0].position - cs[0].width + 1, cs[0].width, cs[0].low)] + StepsFor(cs[1..])
  }

  lemma {:induction false} StepsInsert(cs: seq<Component>, v: Bits, w: Bits)
    requires Placed(cs)
    ensures RunInserter(StepsFor(cs), v, w) == w + FieldOf(Origins(cs), v)
  {
    AllContributions(cs, v);
    if cs != [] {
      AllContributions(cs[1..], v);
      var before := if cs[0].Literal? then w else w + ComponentField(cs[0], v);
      StepsInsert(cs[1..], v, before);
      UnionAssociates(w, ComponentField(cs[0], v), AllFields(cs[1..], v));
    }
  }

  // ----- the integer types of an emitted inserter -----

  /** Shorter types are shifted as ints of 32 bits; a shift by all bits or more is undefined. */
  predicate ShiftsDefined(s: InsertStep, wordBits: nat) {
    s.shift < (if wordBits < 32 then 32 else wordBits) && s.low < (if wordBits < 32 then 32 else wordBits)
  }

  /** The steps on integers of wordBits bits: None if a shift is undefined. */
  function RunTypedSteps(steps: seq<InsertStep>, value: Bits, word: Bits, wordBits: nat): Option<Bits>
    decreases steps
  {
    if steps == [] then Some(word)
    else if !ShiftsDefined(steps[0], wordBits) then None
    else RunTypedSteps(steps[1..], value, (word + StepBits(steps[0], value)) * Low(wordBits), wordBits)
  }

  /** The emitted inserter takes value and word in the unsigned integer type of the format. */
  function RunTypedInserter(steps: seq<InsertStep>, value: Bits, word: Bits, wordBits: nat): Option<Bits> {
    RunTypedSteps(steps, value * Low(wordBits), word * Low(wordBits), wordBits)
  }

  predicate AllShiftsDefined(cs: seq<Component>, wordBits: nat)
    requires Placed(cs)
  {
    forall k | 0 <= k < |StepsFor(cs)| :: ShiftsDefined(StepsFor(cs)[k], wordBits)
  }

  lemma {:induction false} TypedSteps(cs: seq<Component>, formatWidth: nat, v: Bits, w: Bits, wordBits: nat)
    requires Placed(cs) && InFormat(cs, formatWidth) && formatWidth <= wordBits && Fits(w, wordBits)
    ensures RunTypedSteps(StepsFor(cs), v, w, wordBits) ==
            if AllShiftsDefined(cs, wordBits) then Some(w + FieldOf(Origins(cs), v)) else None
  {
    AllContributions(cs, v);
    if cs == [] {
      assert w + {} == w;
    } else {
      assert forall k | 0 <= k < |cs[1..]| :: cs[1..][k] == cs[k + 1];
      AllContributions(cs[1..], v);
      if cs[0].Literal? {
        TypedSteps(cs[1..], formatWidth, v, w, wordBits);
        assert ComponentField(cs[0], v) + AllFields(cs[1..], v) == AllFields(cs[1..], v);
      } else {
        var step := StepsFor(cs)[0];
        assert StepsFor(cs)[1..] == StepsFor(cs[1..]);
        assert AllShiftsDefined(cs, wordBits) <==> ShiftsDefined(step, wordBits) && AllShiftsDefined(cs[1..], wordBits) by {
          assert forall k | 0 <= k < |StepsFor(cs[1..])| :: StepsFor(cs[1..])[k] == StepsFor(cs)[k + 1];
        }
        var next := w + StepBits(step, v);
        assert Fits(next, wordBits) && next * Low(wordBits) == next;
        TypedSteps(cs[1..], formatWidth, v, next, wordBits);
        UnionAssociates(w, ComponentField(cs[0], v), AllFields(cs[1..], v));
      }
    }
  }

  /** No value bit at or above the size of the type goes to the word. */
  predicate ArrivesWhole(os: seq<Origin>, wordBits: nat) {
    forall j: nat | j < |os| && os[j].FromWord? :: j < wordBits
  }

  lemma {:induction false} WholeIsDefined(cs: seq<Component>, formatWidth: nat, wordBits: nat)
    requires Placed(cs) && InFormat(cs, formatWidth) && formatWidth <= wordBits && ArrivesWhole(Origins(cs), wordBits)
    ensures AllShiftsDefined(cs, wordBits)
  {
    if cs != [] {
      var os, lower := Origins(cs), Origins(cs[1..]);
      assert forall k | 0 <= k < |cs[1..]| :: cs[1..][k] == cs[k + 1];
      assert forall j: nat | j < |lower| :: lower[j] == os[j];
      WholeIsDefined(cs[1..], formatWidth, wordBits);
      if cs[0].Reference? {
        assert os[|lower|] == OriginAt(cs[0], 0);
        assert ShiftsDefined(StepsFor(cs)[0], wordBits);
      }
    }
  }

  /** The emitted inserter puts the bits of the value that belong to word bits into the word and leaves out the
      constants; it clears nothing. In the integer type of the format that is so for the low bits of the value, as long
      as all shifts are defined. */
  method GenerateOverlayInserter(overlay: Layout, ghost formatWidth: nat) returns (steps: seq<InsertStep>)
    requires overlay.Valid()
    ensures steps == StepsFor(overlay.components)
    ensures forall v: Bits, w: Bits :: RunInserter(steps, v, w) == w + FieldOf(Origins(overlay.components), v)
    ensures InFormat(overlay.components, formatWidth) && formatWidth <= 64 ==>
              forall v: Bits, w: Bits | Fits(w, TypeBits(formatWidth)) ::
                RunTypedInserter(steps, v, w, TypeBits(formatWidth)) ==
                if AllShiftsDefined(overlay.components, TypeBits(formatWidth))
                then Some(w + FieldOf(Origins(overlay.components), v * Low(TypeBits(formatWidth))))
                else None
  {
    steps := [];
    var cs := overlay.components;
    var remaining := overlay.declaredWidth;
    assert cs[0..] == cs;
    for i := 0 to |cs|
      invariant Placed(cs[i..]) && remaining == |Origins(cs[i..])|
      invariant StepsFor(cs) == steps + StepsFor(cs[i..])
    {
      assert cs[i..][0] == cs[i] && cs[i..][1..] == cs[i + 1..];
      var width := cs[i].width;
      if cs[i].Reference? {
        ghost var before := steps;
        steps := steps + [InsertStep(remaining - width, width, cs[i].low)];
        assert steps + StepsFor(cs[i + 1..]) == before + StepsFor(cs[i..]);
      }
      remaining := remaining - width;
    }
    assert steps + [] == steps;
    InserterRight(cs, formatWidth);
  }

  lemma {:induction false} InserterRight(cs: seq<Component>, formatWidth: nat)
    requires Placed(cs)
    ensures forall v: Bits, w: Bits :: RunInserter(StepsFor(cs), v, w) == w + FieldOf(Origins(cs), v)
    ensures InFormat(cs, formatWidth) && formatWidth <= 64 ==>
              forall v: Bits, w: Bits | Fits(w, TypeBits(formatWidth)) ::
                RunTypedInserter(StepsFor(cs), v, w, TypeBits(formatWidth)) ==
                if AllShiftsDefined(cs, TypeBits(formatWidth)) then Some(w + FieldOf(Origins(cs), v * Low(TypeBits(formatWidth)))) else None
  {
    forall v: Bits, w: Bits ensures RunInserter(StepsFor(cs), v, w) == w + FieldOf(Origins(cs), v) { StepsInsert(cs, v, w); }
    if InFormat(cs, formatWidth) && formatWidth <= 64 {
      var bits := TypeBits(formatWidth);
      forall v: Bits, w: Bits | Fits(w, bits)
        ensures RunTypedInserter(StepsFor(cs), v, w, bits) ==
                if AllShiftsDefined(cs, bits) then Some(w + FieldOf(Origins(cs), v * Low(bits))) else None
      {
        assert w * Low(bits) == w;
        TypedSteps(cs, formatWidth, v * Low(bits), w, bits);
      }
    }
  }

  /** The word after the emitted inserter has a value, and reading the overlay gives v. */
  predicate ComesBack(cs: seq<Component>, v: Bits, word: Bits, wordBits: nat)
    requires Placed(cs)
  {
    match RunTypedInserter(StepsFor(cs), v, word, wordBits)
    case None => false
    case Some(after) => ValueOf(Origins(cs), after) == v
  }

  lemma {:induction false} ComesBackIff(cs: seq<Component>, formatWidth: nat, word: Bits, v: Bits)
    requires Placed(cs) && InFormat(cs, formatWidth) && formatWidth <= 64 && Fits(word, TypeBits(formatWidth))
    ensures ComesBack(cs, v, word, TypeBits(formatWidth)) <==>
            && AllShiftsDefined(cs, TypeBits(formatWidth))
            && ValueOf(Origins(cs), word + FieldOf(Origins(cs), v * Low(TypeBits(formatWidth)))) == v
  {
    var bits := TypeBits(formatWidth);
    assert word * Low(bits) == word;
    TypedSteps(cs, formatWidth, v * Low(bits), word, bits);
  }

  /** Inserted overlay values are read back exactly when the bits of the overlay were zero before and every value bit
      that goes to the word has a place in the integer type of the format. */
  lemma {:induction false} OverlayRoundTripIff(cs: seq<Component>, formatWidth: nat, word: Bits)
    requires Placed(cs) && InFormat(cs, formatWidth) && RepeatsNoBit(Origins(cs))
    requires formatWidth <= 64 && Fits(word, TypeBits(formatWidth))
    ensures (forall v: Bits | AgreesWithConstants(Origins(cs), v) :: ComesBack(cs, v, word, TypeBits(formatWidth))) <==>
            word * MaskOf(Origins(cs)) == {} && ArrivesWhole(Origins(cs), TypeBits(formatWidth))
  {
    var os, bits := Origins(cs), TypeBits(formatWidth);
    if word * MaskOf(os) == {} && ArrivesWhole(os, bits) {
      WholeIsDefined(cs, formatWidth, bits);
      forall v: Bits | AgreesWithConstants(os, v)
        ensures ComesBack(cs, v, word, bits)
      {
        ComesBackIff(cs, formatWidth, word, v);
        assert FieldOf(os, v * Low(bits)) == FieldOf(os, v);
        OverZeros(os, word, v);
      }
    } else {
      var v := LostValue(os, word, bits);
      ComesBackIff(cs, formatWidth, word, v);
    }
  }

  lemma {:induction false} LostValue(os: seq<Origin>, word: Bits, bits: nat) returns (v: Bits)
    requires RepeatsNoBit(os) && !(word * MaskOf(os) == {} && ArrivesWhole(os, bits))
    ensures AgreesWithConstants(os, v) && ValueOf(os, word + FieldOf(os, v * Low(bits))) != v
  {
    v := set k | k in Low(|os|) && os[k].Fixed? && os[k].one;
    assert AgreesWithConstants(os, v);
    if word * MaskOf(os) != {} {
      var p :| p in word * MaskOf(os);
      var j: nat :| j < |os| && os[j].FromWord? && os[j].pos == p;
      assert Reads(os, word + FieldOf(os, v * Low(bits)), j) && j !in v;
    } else {
      var j: nat :| j < |os| && os[j].FromWord? && j >= bits;
      v := v + {j};
      assert os[j].pos !in word by { assert os[j].pos !in word * MaskOf(os); }
      assert forall i: nat | i < |os| && os[i].FromWord? && os[i].pos == os[j].pos :: i == j;
      assert !Reads(os, word + FieldOf(os, v * Low(bits)), j);
    }
  }

  lemma {:induction false} OverZeros(os: seq<Origin>, word: Bits, v: Bits)
    requires RepeatsNoBit(os) && AgreesWithConstants(os, v) && word * MaskOf(os) == {}
    ensures ValueOf(os, word + FieldOf(os, v)) == v
  {
    ValueOfField(os, v);
    forall j: nat
      ensures Reads(os, word + FieldOf(os, v), j) <==> Reads(os, FieldOf(os, v), j)
    {
      if j < |os| && os[j].FromWord? { assert os[j].pos !in word * MaskOf(os); }
    }
  }

  /** The word after the emitted inserter has a value, and the emitted extractor gives v. */
  predicate EmittedComesBack(cs: seq<Component>, v: Bits, word: Bits, formatWidth: nat, resultBits: nat)
    requires Placed(cs)
  {
    match RunTypedInserter(StepsFor(cs), v, word, TypeBits(formatWidth))
    case None => false
    case Some(after) => RunTyped(StatementsFor(cs), after, formatWidth, resultBits) == Some(v)
  }

  lemma {:induction false} EmittedReads(cs: seq<Component>, formatWidth: nat, resultBits: nat, word: Bits, v: Bits)
    requires Placed(cs) && InFormat(cs, formatWidth) && formatWidth <= 64 && Fits(word, formatWidth)
    requires |Origins(cs)| <= resultBits <= 64 && !OnlyZeros(cs) && TypesFit(cs, formatWidth, resultBits)
    ensures EmittedComesBack(cs, v, word, formatWidth, resultBits) <==> ComesBack(cs, v, word, TypeBits(formatWidth))
  {
    var bits, os := TypeBits(formatWidth), Origins(cs);
    assert word * Low(bits) == word;
    TypedSteps(cs, formatWidth, v * Low(bits), word, bits);
    OriginsInFormat(cs, formatWidth);
    var after := word + FieldOf(os, v * Low(bits));
    assert Fits(after, formatWidth);
    TypedIff(cs, formatWidth, resultBits);
    assert RunTyped(StatementsFor(cs), after, formatWidth, resultBits) == Some(ValueOf(os, after));
  }

  /** The emitted code as a whole: where the extractor is right, all values come back through it under the same
      condition. */
  lemma {:induction false} EmittedRoundTripIff(cs: seq<Component>, formatWidth: nat, resultBits: nat, word: Bits)
    requires Placed(cs) && InFormat(cs, formatWidth) && RepeatsNoBit(Origins(cs))
    requires formatWidth <= 64 && Fits(word, formatWidth)
    requires |Origins(cs)| <= resultBits <= 64 && !OnlyZeros(cs) && TypesFit(cs, formatWidth, resultBits)
    ensures (forall v: Bits | AgreesWithConstants(Origins(cs), v) :: EmittedComesBack(cs, v, word, formatWidth, resultBits)) <==>
            word * MaskOf(Origins(cs)) == {} && ArrivesWhole(Origins(cs), TypeBits(formatWidth))
  {
    forall v: Bits
      ensures EmittedComesBack(cs, v, word, formatWidth, resultBits) <==> ComesBack(cs, v, word, TypeBits(formatWidth))
    {
      EmittedReads(cs, formatWidth, resultBits, word, v);
    }
    OverlayRoundTripIff(cs, formatWidth, word);
  }

  /** The shift that brings a value bit down is undefined exactly from bit 32 on in formats of up to 32 bits. */
  lemma {:induction false} UndefinedShiftIff(bit: nat, formatWidth: nat, zeros: nat, v: Bits, w: Bits)
    requires bit < formatWidth <= 64 && zeros < 64 && Fits(w, TypeBits(formatWidth))
    ensures Placed(BitOverZeros(bit, zeros))
    ensures RunTypedInserter(StepsFor(BitOverZeros(bit, zeros)), v, w, TypeBits(formatWidth)) == None <==> formatWidth <= 32 <= zeros
  {
    OneStatement(bit, zeros);
    var cs := BitOverZeros(bit, zeros);
    assert cs[1..] == [cs[1]] && [cs[1]][1..] == [];
    assert StepsFor([cs[1]]) == [];
    var step := InsertStep(zeros, 1, bit);
    assert StepsFor(cs) == [step] && [step][1..] == [];
    assert RunTypedSteps([step], v * Low(TypeBits(formatWidth)), w * Low(TypeBits(formatWidth)), TypeBits(formatWidth)).None? <==>
           !ShiftsDefined(step, TypeBits(formatWidth));
  }

  /** Bit 12 and bits 6 to 2 of a word in front of constant zeros. */
  function ShiftedImmediate(zeros: nat): seq<Component> {
    [Reference(Some("imm1"), 12, 12, 1, zeros + 5), Reference(Some("imm5"), 6, 2, 5, zeros + 4), Literal({}, zeros, zeros - 1)]
  }

  lemma {:induction false} ImmediatePlaced(zeros: nat, formatWidth: nat)
    requires formatWidth > 12
    ensures Placed(ShiftedImmediate(zeros)) && InFormat(ShiftedImmediate(zeros), formatWidth)
    ensures var os := Origins(ShiftedImmediate(zeros));
            && |os| == zeros + 6 && os[zeros + 5] == FromWord(12)
            && (forall j: nat | j < zeros :: os[j] == Fixed(false))
            && (forall j: nat | zeros <= j < zeros + 5 :: os[j] == FromWord(j - zeros + 2))
  {
    var cs := ShiftedImmediate(zeros);
    assert cs[1..] == [cs[1], cs[2]] && cs[1..][1..] == [cs[2]] && [cs[2]][1..] == [];
    assert |Origins([cs[2]])| == zeros;
    assert Placed([cs[2]]) && Placed(cs[1..]);
  }

  lemma {:induction false} ImmediateRead(zeros: nat, formatWidth: nat, resultBits: nat)
    requires 12 < formatWidth && zeros + 6 <= resultBits <= 32
    ensures Placed(ShiftedImmediate(zeros))
    ensures forall w: Bits | Fits(w, formatWidth) ::
              RunTyped(StatementsFor(ShiftedImmediate(zeros)), w, formatWidth, resultBits) == Some(ValueOf(Origins(ShiftedImmediate(zeros)), w))
  {
    var cs := ShiftedImmediate(zeros);
    ImmediatePlaced(zeros, formatWidth);
    ShortWithin(cs, formatWidth);
    TypedIff(cs, formatWidth, resultBits);
  }

  lemma {:induction false} ImmediateShifts(zeros: nat, wordBits: nat)
    requires zeros <= 26 && 12 < wordBits
    ensures Placed(ShiftedImmediate(zeros)) && AllShiftsDefined(ShiftedImmediate(zeros), wordBits)
  {
    var cs := ShiftedImmediate(zeros);
    ImmediatePlaced(zeros, 13);
    assert cs[1..] == [cs[1], cs[2]] && cs[1..][1..] == [cs[2]] && [cs[2]][1..] == [];
    assert StepsFor([cs[2]]) == [];
    assert StepsFor(cs) == [InsertStep(zeros + 5, 1, 12), InsertStep(zeros, 5, 2)];
  }

  /** A value with nothing but a bit beyond the type is inserted as zero. */
  lemma {:induction false} CutBit(cs: seq<Component>, formatWidth: nat, j: nat, wordBits: nat)
    requires Placed(cs) && InFormat(cs, formatWidth) && formatWidth <= wordBits <= j && AllShiftsDefined(cs, wordBits)
    ensures RunTypedInserter(StepsFor(cs), {j}, {}, wordBits) == Some({})
  {
    var none: Bits := {};
    assert {j} * Low(wordBits) == none && none * Low(wordBits) == none;
    TypedSteps(cs, formatWidth, none, none, wordBits);
    assert none + FieldOf(Origins(cs), none) == none;
  }

  /** A format of up to 16 bits whose immediate has 11 or more zeros below it, as the 12 of imm18 in the compressed RISC-V
      format CI: the extractor is right, and an inserter on integers of any size would be, but the top bit of a value
      never reaches the word, because the value is cut to the type of the format. */
  lemma {:induction false} CutImmediate(zeros: nat, formatWidth: nat, resultBits: nat)
    requires 11 <= zeros && 12 < formatWidth <= 16 && zeros + 6 <= resultBits <= 32
    ensures var cs, v := ShiftedImmediate(zeros), {zeros + 5};
            && Placed(cs) && RepeatsNoBit(Origins(cs)) && AgreesWithConstants(Origins(cs), v)
            && (forall w: Bits | Fits(w, formatWidth) ::
                  RunTyped(StatementsFor(cs), w, formatWidth, resultBits) == Some(ValueOf(Origins(cs), w)))
            && ValueOf(Origins(cs), RunInserter(StepsFor(cs), v, {})) == v
            && RunTypedInserter(StepsFor(cs), v, {}, TypeBits(formatWidth)) == Some({})
  {
    var cs, v := ShiftedImmediate(zeros), {zeros + 5};
    ImmediatePlaced(zeros, formatWidth);
    ImmediateRead(zeros, formatWidth, resultBits);
    assert RepeatsNoBit(Origins(cs));
    StepsInsert(cs, v, {});
    assert {} + FieldOf(Origins(cs), v) == FieldOf(Origins(cs), v);
    ValueOfField(Origins(cs), v);
    ImmediateShifts(zeros, TypeBits(formatWidth));
    CutBit(cs, formatWidth, zeros + 5, TypeBits(formatWidth));
  }
}
