/** Specializations of opcodes that have no constraints left to test. */
module Specializations {
  import opened Words
  import opened Status
  import opened Extract
  import opened InstructionEncodings
  import opened DecisionTrees
  import opened DecoderCorrectness
  import opened Braces
  import opened EncodingGroups
  import opened InstructionGroups
  import opened SharedVariables

  lemma {:induction false} DifferentBit(e: Encoding, f: Encoding) returns (p: nat)
    requires e.Valid() && f.Valid() && e.mask == f.mask && e.value != f.value
    ensures p in e.mask && (p in e.value) != (p in f.value)
  {
    MasksFit(e.equal);
    MasksFit(f.equal);
    p :| (p in e.value) != (p in f.value);
  }

  /** Such a bit belongs to the discriminator of a group that holds both. */
  lemma {:induction false} PairDiscriminator(n: Node, e: Encoding, f: Encoding, p: nat)
    requires GroupTree(n, [e, f]) && e.mask == f.mask && p in e.mask && (p in e.value) != (p in f.value)
    ensures (n.encs == [e, f] || n.encs == [f, e]) && Common(n.encs) == e.mask && p in n.discriminator
  {
    PairGroups(e, f);
    TwoOrders(n.encs, e, f);
    PairMasks(n.encs, e, f);
  }

  /** The tree of two encodings with one mask and different values has a leaf for each of them. */
  lemma {:induction false} SplitPair(n: Node, e: Encoding, f: Encoding) returns (k: nat)
    requires GroupTree(n, [e, f]) && e.Valid() && f.Valid() && e.mask == f.mask && e.value != f.value
    ensures k < |n.children| && n.children[k].encs == [e] && n.children[k].children == []
    ensures n.children[k].ignore == e.mask && n.children[k].discriminator == {}
  {
    var p := DifferentBit(e, f);
    PairDiscriminator(n, e, f, p);
    SplitHere(n);
    k := ChildOf(n, e);
    OneOfPair(n, k, e, f, p);
  }

  lemma {:induction false} SplitHere(n: Node)
    requires WellFormed(n) && Split(n) && n.discriminator != {}
    ensures Partitioned(n)
  {
  }

  lemma {:induction false} ChildOf(n: Node, e: Encoding) returns (k: nat)
    requires Partitioned(n) && e in n.encs
    ensures k < |n.children| && ChildIndex(n, n.children[k]) == Index(e.value, n.discriminator)
  {
    k :| 0 <= k < |n.children| && ChildIndex(n, n.children[k]) == Index(e.value, n.discriminator);
  }

  lemma {:induction false} PairMasks(encs: seq<Encoding>, e: Encoding, f: Encoding)
    requires (encs == [e, f] || encs == [f, e]) && e.mask == f.mask
    ensures Common(encs) == e.mask && forall p: nat :: p in Differ(encs) <==> (p in e.value) != (p in f.value)
  {
    assert encs[0] in encs && encs[1] in encs;
  }

  lemma {:induction false} DifferentIndex(e: Encoding, f: Encoding, d: Word, p: nat)
    requires p in d && (p in e.value) != (p in f.value)
    ensures Index(e.value, d) != Index(f.value, d)
  {
    IndexInjective(e.value, f.value, d);
    assert p in e.value * d <==> p in e.value;
    assert p in f.value * d <==> p in f.value;
  }

  lemma {:induction false} OneChild(n: Node, c: Node, e: Encoding, f: Encoding, p: nat)
    requires Summarized(n) && PathInvariant(n.ignore, n.encs) && IsChild(n, c)
    requires n.ignore == {} && (n.encs == [e, f] || n.encs == [f, e])
    requires Common(n.encs) == e.mask && p in n.discriminator && (p in e.value) != (p in f.value)
    requires ChildIndex(n, c) == Index(e.value, n.discriminator)
    ensures c.encs == [e] && c.ignore == e.mask
  {
    SummaryFacts(n);
    DifferentIndex(e, f, n.discriminator, p);
    OnlyOne(n.encs, n.discriminator, e, f);
    SameSingle(c.encs, e);
  }

  lemma {:induction false} ChildFacts(n: Node, k: nat)
    requires WellFormed(n) && Split(n) && k < |n.children|
    ensures IsChild(n, n.children[k]) && WellFormed(n.children[k]) && Settled(n.children[k])
  {
  }

  lemma {:induction false} OneOfPair(n: Node, k: nat, e: Encoding, f: Encoding, p: nat)
    requires WellFormed(n) && Split(n) && n.ignore == {} && (n.encs == [e, f] || n.encs == [f, e]) && k < |n.children|
    requires Common(n.encs) == e.mask && p in n.discriminator && (p in e.value) != (p in f.value)
    requires ChildIndex(n, n.children[k]) == Index(e.value, n.discriminator)
    ensures n.children[k].encs == [e] && n.children[k].children == []
    ensures n.children[k].ignore == e.mask && n.children[k].discriminator == {}
  {
    ChildFacts(n, k);
    OneChild(n, n.children[k], e, f, p);
    SingleLeaf(n.children[k], e);
  }

  /** A settled group of one encoding is a leaf, without discriminator once the bits of the encoding are dealt with. */
  lemma {:induction false} SingleLeaf(c: Node, e: Encoding)
    requires WellFormed(c) && Settled(c) && c.encs == [e] && c.ignore == e.mask
    ensures c.children == [] && c.discriminator == {}
  {
    SummarySingle(e);
  }

  lemma {:induction false} OnlyOne(encs: seq<Encoding>, d: Word, e: Encoding, f: Encoding)
    requires (encs == [e, f] || encs == [f, e]) && Index(e.value, d) != Index(f.value, d)
    ensures Filter(encs, d, Index(e.value, d)) == [e]
  {
    assert encs[1..] == [encs[1]] && [encs[1]][1..] == [];
    assert Filter([encs[1]], d, Index(e.value, d)) == if encs[1] == e then [e] + [] else [] + [];
  }

  lemma {:induction false} SameSingle(encs: seq<Encoding>, e: Encoding)
    requires multiset(encs) == multiset([e])
    ensures encs == [e]
  {
    SamePermutation(encs, [e]);
    assert encs == [encs[0]] && encs[0] in encs;
  }

  lemma {:induction false} BareArm(e: Encoding)
    requires e.Valid() && e.extracted == [] && e.other == []
    ensures ArmFor(e, {}, e.mask).conditions == []
  {
    forall i | 0 <= i < |e.equal|
      ensures CanIgnore(e.equal[i], {}, e.mask)
    {
      forall p | p in e.equal[i].lhs.Mask() ensures p in e.mask { MaskMember(e.equal, p); }
    }
    NothingKept(e.equal, {}, e.mask);
  }

  lemma {:induction false} LeafArm(c: Node, code: Code, e: Encoding)
    requires WellFormed(c) && AllEncodings(c.encs) && IsCodeFor(code, c) && e.Valid()
    requires c.encs == [e] && c.children == [] && c.ignore == e.mask && c.discriminator == {}
    ensures HasArm(code, ArmFor(e, {}, e.mask))
  {
    assert c.ignore + c.discriminator == e.mask;
    OnlyArm(e);
  }

  lemma {:induction false} OnlyArm(e: Encoding)
    requires e.Valid() && AllEncodings([e])
    ensures ArmsFor([e], {}, e.mask) == [ArmFor(e, {}, e.mask)]
  {
    assert [e][1..] == [];
  }

  lemma {:induction false} ChildArm(n: Node, code: Code, k: nat, e: Encoding)
    requires WellFormed(n) && AllEncodings(n.encs) && IsCodeFor(code, n) && k < |n.children| && e.Valid()
    requires n.children[k].encs == [e] && n.children[k].children == []
    requires n.children[k].ignore == e.mask && n.children[k].discriminator == {}
    ensures HasArm(code, ArmFor(e, {}, e.mask))
  {
    SlotOf(n, code, k);
    LeafArm(n.children[k], code.body.slots[ChildIndex(n, n.children[k])].value, e);
  }

  /** Of two encodings that compare the same bits with different values and have no other constraints, one is given a
      specialization: in every decoder that may be generated for them there is an arm whose braces do not match. */
  lemma {:induction false} SpecializedOpcode(decoders: seq<Code>, trees: seq<Node>, e: Encoding, f: Encoding)
    requires Generated(decoders, trees, [e, f]) && e.Valid() && f.Valid() && e.mask == f.mask && e.value != f.value
    requires e.extracted == [] && e.other == [] && e.specials != []
    ensures exists arm, k :: 0 <= k < |decoders| && HasArm(decoders[k], arm) && arm.result == e && !Balanced(ArmBraces(arm), 0)
  {
    assert trees != [] by { assert e in multiset([e, f]); }
    TailCodes(decoders, trees);
    OpenCode(decoders[0], trees[0]);
    var k := SplitPair(trees[0], e, f);
    ChildArm(trees[0], decoders[0], k, e);
    BareArm(e);
    BalancedIff(ArmFor(e, {}, e.mask));
  }
}
