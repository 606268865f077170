/** Emitting the arms of a leaf decoder and the table of an inner one. */
module Emission {
  import opened Words
  import opened Status
  import opened Extract
  import opened Overlays
  import opened InstructionEncodings
  import opened DecisionTrees

  lemma {:induction false} NothingLeft(a: Bits, b: Bits)
    ensures a - b == {} <==> a <= b
  {
    if a - b == {} {
      forall p | p in a ensures p in b { assert p !in a - b; }
    }
  }

  /** Decides whether a constraint may be dropped; the bits of an overlay are found by spreading all ones. */
  method ProcessConstraint(c: Constraint, extracted: set<string>, handled: Word) returns (canIgnore: bool)
    requires c.Valid()
    ensures canIgnore == CanIgnore(c, extracted, handled)
  {
    canIgnore := false;
    match c.lhs {
      case FieldSource(field) =>
        if field.name in extracted {
          return;
        }
        var mask := Low(field.width);
        NothingLeft(Shl(mask, field.low), handled);
        if Shl(mask, field.low) - handled == {} {
          canIgnore := true;
        }
      case OverlaySource(overlay) =>
        var mask := overlay.GetBitField(Low(overlay.declaredWidth));
        assert mask == overlay.mask;
        NothingLeft(mask, handled);
        if mask - handled == {} {
          canIgnore := true;
        }
    }
  }

  /** The bits of an overlay's variable: its type is that of the instruction word, or a longer one for a longer overlay. */
  function VariableBits(overlay: Layout, width: nat): nat {
    TypeBits(if overlay.declaredWidth > width then overlay.declaredWidth else width)
  }

  /** The smallest type that holds the instruction word and the overlay. */
  lemma {:induction false} VariableBitsLeast(overlay: Layout, width: nat, bits: nat)
    requires width <= 64 && overlay.declaredWidth <= 64 && bits in {8, 16, 32, 64}
    ensures VariableBits(overlay, width) <= bits <==> width <= bits && overlay.declaredWidth <= bits
  {
    TypeBitsLeast(if overlay.declaredWidth > width then overlay.declaredWidth else width, bits);
  }

  /** The statements that assign the variable of an overlay: there is one unless the overlay is constant zero, and the
      variable gets the value of the overlay in every word exactly when the types of the operands fit. */
  method EmitOverlayExtraction(overlay: Layout, ghost width: nat) returns (ss: seq<Statement>)
    requires OverlaySource(overlay).Valid()
    ensures ss != [] <==> Assigns(OverlaySource(overlay))
    ensures InFormat(overlay.components, width) && width <= 64 ==>
              (Assigns(OverlaySource(overlay)) && TypesFit(overlay.components, width, VariableBits(overlay, width)) <==>
               forall w: Bits | Fits(w, width) ::
                 RunTyped(ss, w, width, VariableBits(overlay, width)) == Some(OverlaySource(overlay).Value(w)))
  {
    ss := overlay.WriteSimpleValueExtractor(width, VariableBits(overlay, width));
  }

  /** Declares the variables of the constraints that do not exist yet. */
  method EmitExtractions(cs: seq<Constraint>, extracted: set<string>) returns (emitted: seq<Source>, names: set<string>)
    ensures emitted == Fresh(Sources(cs), extracted)
    ensures names == extracted + Names(Sources(cs))
  {
    emitted, names := [], extracted;
    assert cs[0..] == cs;
    for i := 0 to |cs|
      invariant emitted + Fresh(Sources(cs[i..]), names) == Fresh(Sources(cs), extracted)
      invariant names + Names(Sources(cs[i..])) == extracted + Names(Sources(cs))
    {
      var ss := ConstraintSources(cs[i]);
      assert cs[i..][1..] == cs[i + 1..];
      ghost var todo := Sources(cs[i + 1..]);
      FreshAppend(ss, todo, names);
      var more, seen := EmitSources(ss, names);
      assert emitted + (more + Fresh(todo, seen)) == (emitted + more) + Fresh(todo, seen);
      UnionAssociatesNames(names, Names(ss), Names(todo));
      emitted, names := emitted + more, seen;
    }
  }

  lemma {:induction false} UnionAssociatesNames(a: set<string>, b: set<string>, c: set<string>)
    ensures (a + b) + c == a + (b + c)
  {
  }

  lemma {:induction false} FreshAppend(a: seq<Source>, b: seq<Source>, names: set<string>)
    ensures Names(a + b) == Names(a) + Names(b)
    ensures Fresh(a + b, names) == Fresh(a, names) + Fresh(b, names + Names(a))
    decreases a
  {
    if a == [] {
      assert a + b == b && names + Names(a) == names;
    } else {
      assert (a + b)[1..] == a[1..] + b;
      if a[0].Name() in names {
        FreshAppend(a[1..], b, names);
        assert names + Names(a[1..]) == names + Names(a);
      } else {
        FreshAppend(a[1..], b, names + {a[0].Name()});
        UnionAssociatesNames(names, {a[0].Name()}, Names(a[1..]));
      }
    }
  }

  method EmitSources(ss: seq<Source>, extracted: set<string>) returns (emitted: seq<Source>, names: set<string>)
    ensures emitted == Fresh(ss, extracted)
    ensures names == extracted + Names(ss)
  {
    emitted, names := [], extracted;
    assert ss[0..] == ss;
    for i := 0 to |ss|
      invariant emitted + Fresh(ss[i..], names) == Fresh(ss, extracted)
      invariant names + Names(ss[i..]) == extracted + Names(ss)
    {
      var s := ss[i];
      assert ss[i..][0] == s && ss[i..][1..] == ss[i + 1..];
      if s.Name() !in names {
        assert emitted + ([s] + Fresh(ss[i + 1..], names + {s.Name()})) == (emitted + [s]) + Fresh(ss[i + 1..], names + {s.Name()});
        emitted := emitted + [s];
      }
      UnionAssociatesNames(names, {s.Name()}, Names(ss[i + 1..]));
      if s.Name() in names { assert names == names + {s.Name()}; }
      names := names + {s.Name()};
    }
  }

  method DropIgnored(cs: seq<Constraint>, extracted: set<string>, handled: Word) returns (kept: seq<Constraint>)
    requires AllValid(cs)
    ensures kept == Kept(cs, extracted, handled)
  {
    kept := [];
    assert cs[0..] == cs;
    for i := 0 to |cs|
      invariant kept + Kept(cs[i..], extracted, handled) == Kept(cs, extracted, handled)
    {
      var c := cs[i];
      assert cs[i..][0] == c && cs[i..][1..] == cs[i + 1..];
      var canIgnore := ProcessConstraint(c, extracted, handled);
      ghost var todo := Kept(cs[i + 1..], extracted, handled);
      if !canIgnore {
        assert kept + ([c] + todo) == (kept + [c]) + todo;
        kept := kept + [c];
      } else {
        assert [] + todo == todo;
      }
    }
    assert cs[|cs|..] == [];
  }

  /** What the next specialization contributes to the declared variables and to their names. */
  lemma {:induction false} NextSpecial(ss: seq<Special>, i: nat, emitted: seq<Source>, names: set<string>)
    requires i < |ss|
    ensures var first, todo := Sources(ss[i].conditions), SpecialSources(ss[i + 1..]);
            && emitted + Fresh(SpecialSources(ss[i..]), names) == (emitted + Fresh(first, names)) + Fresh(todo, names + Names(first))
            && names + Names(SpecialSources(ss[i..])) == (names + Names(first)) + Names(todo)
  {
    var first, todo := Sources(ss[i].conditions), SpecialSources(ss[i + 1..]);
    assert ss[i..][0] == ss[i] && ss[i..][1..] == ss[i + 1..];
    assert SpecialSources(ss[i..]) == first + todo;
    FreshAppend(first, todo, names);
    UnionAssociatesNames(names, Names(first), Names(todo));
  }

  /** Declares the variables of the specializations. */
  method EmitSpecialExtractions(ss: seq<Special>, extracted: set<string>) returns (emitted: seq<Source>, names: set<string>)
    ensures emitted == Fresh(SpecialSources(ss), extracted)
    ensures names == extracted + Names(SpecialSources(ss))
  {
    emitted, names := [], extracted;
    assert ss[0..] == ss;
    for i := 0 to |ss|
      invariant emitted + Fresh(SpecialSources(ss[i..]), names) == Fresh(SpecialSources(ss), extracted)
      invariant names + Names(SpecialSources(ss[i..])) == extracted + Names(SpecialSources(ss))
    {
      NextSpecial(ss, i, emitted, names);
      var more, seen := EmitExtractions(ss[i].conditions, names);
      emitted, names := emitted + more, seen;
    }
  }

  /** The arm of one encoding: constraints that may be dropped are marked first, then the variables of the
      remaining ones and of the specializations are declared, and all of them tested. */
  method EmitEncodingIfStatement(e: Encoding, extracted: set<string>, handled: Word) returns (arm: Arm, names: set<string>)
    requires e.Valid()
    ensures arm == ArmFor(e, extracted, handled)
    ensures names == extracted + Names(ReadSources(e, extracted, handled))
  {
    var kept := DropIgnored(e.equal, extracted, handled);
    var conditions := kept + e.extracted + e.other;
    var first, seen := EmitExtractions(conditions, extracted);
    var more;
    more, names := EmitSpecialExtractions(e.specials, seen);
    FreshAppend(Sources(conditions), SpecialSources(e.specials), extracted);
    UnionAssociatesNames(extracted, Names(Sources(conditions)), Names(SpecialSources(e.specials)));
    arm := Arm(first + more, conditions, e.specials, e);
  }

  lemma {:induction false} NextArm(arms: seq<Arm>, encs: seq<Encoding>, i: nat, extracted: set<string>, handled: Word)
    requires i < |encs| && AllEncodings(encs[i..])
    ensures encs[i].Valid() && AllEncodings(encs[i + 1..])
    ensures var arm, names := ArmFor(encs[i], extracted, handled), extracted + Names(ReadSources(encs[i], extracted, handled));
            arms + ArmsFor(encs[i..], extracted, handled) == (arms + [arm]) + ArmsFor(encs[i + 1..], names, handled)
  {
    var arm, names := ArmFor(encs[i], extracted, handled), extracted + Names(ReadSources(encs[i], extracted, handled));
    assert encs[i..][0] == encs[i] && encs[i..][1..] == encs[i + 1..];
    assert arms + ([arm] + ArmsFor(encs[i + 1..], names, handled)) == (arms + [arm]) + ArmsFor(encs[i + 1..], names, handled);
  }

  method EmitIfSequence(encs: seq<Encoding>, handled: Word) returns (arms: seq<Arm>)
    requires AllEncodings(encs)
    ensures arms == ArmsFor(encs, {}, handled)
  {
    arms := [];
    var extracted: set<string> := {};
    assert encs[0..] == encs;
    for i := 0 to |encs|
      invariant AllEncodings(encs[i..])
      invariant arms + ArmsFor(encs[i..], extracted, handled) == ArmsFor(encs, {}, handled)
    {
      var e := encs[i];
      NextArm(arms, encs, i, extracted, handled);
      var arm, names := EmitEncodingIfStatement(e, extracted, handled);
      arms := arms + [arm];
      extracted := names;
    }
  }
}
