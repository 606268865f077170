/** The braces emitted for encodings with specializations, and when they match. */
module Braces {
  import opened Words
  import opened Folding
  import opened Status
  import opened Extract
  import opened InstructionEncodings
  import opened DecisionTrees
  import opened DecoderCorrectness
  import opened EncodingGroups

  // ----- one arm -----

  datatype Brace = Open | Close

  /** The ifs of the specializations; each one after the first closes the one before it. A specialization without
      conditions gets no if. */
  function SpecialBraces(ss: seq<Special>, first: bool): seq<Brace> {
    if ss == [] then []
    else (if ss[0].conditions == [] then [] else if first then [Open] else [Close, Open]) + SpecialBraces(ss[1..], false)
  }

  /** The braces of an arm. Without specializations it has none. Otherwise its own if is opened, but only if it has
      conditions; the specializations follow, then an else for the opcode itself, and both are closed. */
  function ArmBraces(arm: Arm): seq<Brace> {
    if arm.specials == [] then []
    else (if arm.conditions == [] then [] else [Open]) + (SpecialBraces(arm.specials, true) + [Close, Open, Close, Close])
  }

  /** Every brace is closed, and none that was not opened. */
  predicate Balanced(bs: seq<Brace>, depth: nat) {
    if bs == [] then depth == 0
    else if bs[0].Open? then Balanced(bs[1..], depth + 1)
    else depth > 0 && Balanced(bs[1..], depth - 1)
  }

  lemma {:induction false} OneBrace(b: Brace, rest: seq<Brace>, depth: nat)
    ensures Balanced([b] + rest, depth) <==> if b.Open? then Balanced(rest, depth + 1) else depth > 0 && Balanced(rest, depth - 1)
  {
    assert ([b] + rest)[1..] == rest;
  }

  /** Specializations after the first leave as many braces open as they find. */
  lemma {:induction false} MoreSpecials(ss: seq<Special>, rest: seq<Brace>, depth: nat)
    requires depth > 0
    ensures Balanced(SpecialBraces(ss, false) + rest, depth) <==> Balanced(rest, depth)
  {
    if ss == [] {
      assert [] + rest == rest;
    } else {
      var more := SpecialBraces(ss[1..], false) + rest;
      MoreSpecials(ss[1..], rest, depth);
      if ss[0].conditions == [] {
        assert SpecialBraces(ss, false) + rest == more;
      } else {
        assert SpecialBraces(ss, false) + rest == [Close] + ([Open] + more);
        OneBrace(Close, [Open] + more, depth);
        OneBrace(Open, more, depth - 1);
      }
    }
  }

  lemma {:induction false} TailDepth(depth: nat)
    ensures Balanced([Close, Open, Close, Close], depth) <==> depth == 2
  {
    assert [Close, Open, Close, Close] == [Close] + ([Open] + ([Close] + ([Close] + [])));
    OneBrace(Close, [Open] + ([Close] + ([Close] + [])), depth);
    if depth > 0 {
      OneBrace(Open, [Close] + ([Close] + []), depth - 1);
      OneBrace(Close, [Close] + [], depth);
      OneBrace(Close, [], depth - 1);
    }
  }

  /** Without an open brace the specializations cannot close one. */
  lemma {:induction false} NothingOpen(ss: seq<Special>)
    ensures !Balanced(SpecialBraces(ss, false) + [Close, Open, Close, Close], 0)
  {
    var tail := [Close, Open, Close, Close];
    if ss == [] {
      assert [] + tail == tail;
      TailDepth(0);
    } else if ss[0].conditions == [] {
      NothingOpen(ss[1..]);
      assert SpecialBraces(ss, false) == SpecialBraces(ss[1..], false);
    }
  }

  lemma {:induction false} SpecialDepth(ss: seq<Special>, depth: nat)
    requires ss != []
    ensures Balanced(SpecialBraces(ss, true) + [Close, Open, Close, Close], depth) <==>
            depth + (if ss[0].conditions == [] then 0 else 1) == 2
  {
    var tail := [Close, Open, Close, Close];
    var more := SpecialBraces(ss[1..], false) + tail;
    if ss[0].conditions == [] {
      assert SpecialBraces(ss, true) + tail == more;
      if depth == 0 { NothingOpen(ss[1..]); } else { MoreSpecials(ss[1..], tail, depth); }
      TailDepth(depth);
    } else {
      assert SpecialBraces(ss, true) + tail == [Open] + more;
      OneBrace(Open, more, depth);
      MoreSpecials(ss[1..], tail, depth + 1);
      TailDepth(depth + 1);
    }
  }

  /** The braces of an arm match exactly when it has no specializations, or conditions for itself and for the first. */
  lemma {:induction false} BalancedIff(arm: Arm)
    ensures Balanced(ArmBraces(arm), 0) <==>
            arm.specials == [] || (arm.conditions != [] && arm.specials[0].conditions != [])
  {
    if arm.specials != [] {
      var rest := SpecialBraces(arm.specials, true) + [Close, Open, Close, Close];
      if arm.conditions == [] {
        assert [] + rest == rest;
        SpecialDepth(arm.specials, 0);
      } else {
        OneBrace(Open, rest, 0);
        SpecialDepth(arm.specials, 1);
      }
    }
  }

  lemma {:induction false} NothingKept(cs: seq<Constraint>, extracted: set<string>, handled: Word)
    requires AllValid(cs)
    ensures Kept(cs, extracted, handled) == [] <==> forall i | 0 <= i < |cs| :: CanIgnore(cs[i], extracted, handled)
  {
    if cs != [] {
      NothingKept(cs[1..], extracted, handled);
      if forall i | 0 <= i < |cs[1..]| :: CanIgnore(cs[1..][i], extracted, handled) {
        forall i | 1 <= i < |cs| ensures CanIgnore(cs[i], extracted, handled) { assert cs[i] == cs[1..][i - 1]; }
      }
    }
  }

  /** The encoding has no specializations, or the first one has a condition and so has the encoding: a constraint that is
      not dropped. */
  ghost predicate KeepsCondition(e: Encoding, extracted: set<string>, handled: Word)
    requires e.Valid()
  {
    || e.specials == []
    || (&& e.specials[0].conditions != []
        && (e.extracted != [] || e.other != [] || exists i :: 0 <= i < |e.equal| && !CanIgnore(e.equal[i], extracted, handled)))
  }

  lemma {:induction false} ArmBalancedIff(e: Encoding, extracted: set<string>, handled: Word)
    requires e.Valid()
    ensures Balanced(ArmBraces(ArmFor(e, extracted, handled)), 0) <==> KeepsCondition(e, extracted, handled)
  {
    BalancedIff(ArmFor(e, extracted, handled));
    NothingKept(e.equal, extracted, handled);
  }

  // ----- a whole decoder -----

  /** The arm is somewhere in the code. */
  ghost predicate HasArm(code: Code, arm: Arm) {
    match code.body
    case Table(_, slots) => exists i :: 0 <= i < |slots| && slots[i].Some? && HasArm(slots[i].value, arm)
    case Switch(_, cases) => exists i :: i in cases && arm in cases[i]
    case IfChain(arms) => arm in arms
  }

  /** The braces of all arms match. */
  ghost predicate ArmsBalanced(code: Code) {
    forall arm | HasArm(code, arm) :: Balanced(ArmBraces(arm), 0)
  }

  /** So do all encodings that are tested together, with the variables declared so far. */
  ghost predicate CaseKeeps(encs: seq<Encoding>, extracted: set<string>, handled: Word)
    requires AllEncodings(encs)
    decreases encs
  {
    encs == [] ||
    (&& KeepsCondition(encs[0], extracted, handled)
     && CaseKeeps(encs[1..], extracted + Names(ReadSources(encs[0], extracted, handled)), handled))
  }

  /** So do the encodings of every leaf or case. */
  ghost predicate TreeKeeps(n: Node)
    decreases n
  {
    if n.children == [] then forall i: nat :: AllEncodings(CaseOf(n, i)) && CaseKeeps(CaseOf(n, i), {}, n.ignore + n.discriminator)
    else forall k | 0 <= k < |n.children| :: TreeKeeps(n.children[k])
  }

  lemma {:induction false} CaseBalancedIff(encs: seq<Encoding>, extracted: set<string>, handled: Word)
    requires AllEncodings(encs)
    ensures (forall arm | arm in ArmsFor(encs, extracted, handled) :: Balanced(ArmBraces(arm), 0)) <==> CaseKeeps(encs, extracted, handled)
  {
    if encs != [] {
      var names := extracted + Names(ReadSources(encs[0], extracted, handled));
      ArmBalancedIff(encs[0], extracted, handled);
      CaseBalancedIff(encs[1..], names, handled);
      var arm, rest := ArmFor(encs[0], extracted, handled), ArmsFor(encs[1..], names, handled);
      assert ArmsFor(encs, extracted, handled) == [arm] + rest;
      assert forall a :: a in [arm] + rest <==> a == arm || a in rest;
    }
  }

  lemma {:induction false} CaseValid(n: Node, i: nat)
    requires AllEncodings(n.encs)
    ensures AllEncodings(CaseOf(n, i))
  {
    forall e | e in CaseOf(n, i) ensures e.Valid() { if n.discriminator != {} { FilterMember(n.encs, n.discriminator, i, e); } }
  }

  /** The arms of a leaf are those of its cases. */
  lemma {:induction false} ArmOfCase(n: Node, code: Code, arm: Arm) returns (i: nat)
    requires CodeFor(code, n) && n.children == [] && HasArm(code, arm)
    ensures AllEncodings(CaseOf(n, i)) && arm in ArmsFor(CaseOf(n, i), {}, n.ignore + n.discriminator)
  {
    OpenCode(code, n);
    if n.discriminator == {} { i := 0; } else { i :| i in code.body.cases && arm in code.body.cases[i]; }
    CaseValid(n, i);
  }

  lemma {:induction false} CaseHasArm(n: Node, code: Code, arm: Arm, i: nat)
    requires CodeFor(code, n) && n.children == []
    requires AllEncodings(CaseOf(n, i)) && arm in ArmsFor(CaseOf(n, i), {}, n.ignore + n.discriminator)
    ensures HasArm(code, arm)
  {
    OpenCode(code, n);
    if n.discriminator != {} { assert i in code.body.cases; }
  }

  lemma {:induction false} LeafBalancedIff(n: Node, code: Code)
    requires CodeFor(code, n) && n.children == []
    ensures ArmsBalanced(code) <==> TreeKeeps(n)
  {
    var handled: Word := n.ignore + n.discriminator;
    if ArmsBalanced(code) {
      forall i: nat
        ensures AllEncodings(CaseOf(n, i)) && CaseKeeps(CaseOf(n, i), {}, handled)
      {
        OpenEncodings(n, code);
        CaseValid(n, i);
        forall arm | arm in ArmsFor(CaseOf(n, i), {}, handled) ensures Balanced(ArmBraces(arm), 0) { CaseHasArm(n, code, arm, i); }
        CaseBalancedIff(CaseOf(n, i), {}, handled);
      }
    }
    if TreeKeeps(n) {
      forall arm | HasArm(code, arm) ensures Balanced(ArmBraces(arm), 0) {
        var i := ArmOfCase(n, code, arm);
        assert CaseKeeps(CaseOf(n, i), {}, handled);
        CaseBalancedIff(CaseOf(n, i), {}, handled);
      }
    }
  }

  lemma {:induction false} OpenEncodings(n: Node, code: Code)
    requires CodeFor(code, n)
    ensures AllEncodings(n.encs)
  {
    OpenCode(code, n);
  }

  /** Every subgroup has a slot with its code, and every filled slot the code of a subgroup. */
  lemma {:induction false} SlotOfChild(n: Node, code: Code, k: nat) returns (i: nat)
    requires CodeFor(code, n) && k < |n.children|
    ensures n.children[k].encs != [] && i == ChildIndex(n, n.children[k])
    ensures code.body.Table? && i < |code.body.slots| && code.body.slots[i].Some? && CodeFor(code.body.slots[i].value, n.children[k])
  {
    OpenCode(code, n);
    ChildValid(n, k);
    i := ChildIndex(n, n.children[k]);
  }

  lemma {:induction false} ChildFilled(n: Node, k: nat)
    requires Partitioned(n) && k < |n.children|
    ensures n.children[k].encs != []
  {
    assert IsChild(n, n.children[k]);
  }

  lemma {:induction false} SlotFilled(n: Node, code: Code, i: nat) returns (k: nat)
    requires CodeFor(code, n) && n.children != []
    requires code.body.Table? && i < |code.body.slots| && code.body.slots[i].Some?
    ensures k < |n.children| && n.children[k].encs != [] && ChildIndex(n, n.children[k]) == i
  {
    OpenCode(code, n);
    k :| k < |n.children| && ChildIndex(n, n.children[k]) == i;
    ChildFilled(n, k);
  }

  lemma {:induction false} ChildOfSlot(n: Node, code: Code, i: nat) returns (k: nat)
    requires CodeFor(code, n) && n.children != []
    requires code.body.Table? && i < |code.body.slots| && code.body.slots[i].Some?
    ensures k < |n.children| && CodeFor(code.body.slots[i].value, n.children[k])
  {
    k := SlotFilled(n, code, i);
    var same := SlotOfChild(n, code, k);
  }

  lemma {:induction false} InnerIsTable(n: Node, code: Code)
    requires CodeFor(code, n) && n.children != []
    ensures code.body.Table?
  {
    OpenCode(code, n);
  }

  /** The braces of a decoder match exactly when the encodings of every leaf or case keep a condition. */
  lemma {:induction false} BalancedTreeIff(n: Node, code: Code)
    requires CodeFor(code, n)
    ensures ArmsBalanced(code) <==> TreeKeeps(n)
    decreases n
  {
    if n.children == [] {
      LeafBalancedIff(n, code);
    } else {
      if ArmsBalanced(code) {
        forall k | 0 <= k < |n.children| ensures TreeKeeps(n.children[k]) {
          var i := SlotOfChild(n, code, k);
          var c := code.body.slots[i].value;
          forall arm | HasArm(c, arm) ensures Balanced(ArmBraces(arm), 0) { assert HasArm(code, arm); }
          BalancedTreeIff(n.children[k], c);
        }
      }
      if TreeKeeps(n) {
        forall arm | HasArm(code, arm) ensures Balanced(ArmBraces(arm), 0) {
          InnerIsTable(n, code);
          var i: nat :| i < |code.body.slots| && code.body.slots[i].Some? && HasArm(code.body.slots[i].value, arm);
          var k := ChildOfSlot(n, code, i);
          BalancedTreeIff(n.children[k], code.body.slots[i].value);
        }
      }
    }
  }

  /** The braces of all decoders match exactly when the encodings of every leaf or case keep a condition. */
  lemma {:induction false} AllBalancedIff(decoders: seq<Code>, trees: seq<Node>)
    requires CodesFor(decoders, trees, |trees|)
    ensures (forall k | 0 <= k < |decoders| :: ArmsBalanced(decoders[k])) <==> forall k | 0 <= k < |trees| :: TreeKeeps(trees[k])
  {
    forall k | 0 <= k < |trees|
      ensures ArmsBalanced(decoders[k]) <==> TreeKeeps(trees[k])
    {
      BalancedTreeIff(trees[k], decoders[k]);
    }
  }
}
