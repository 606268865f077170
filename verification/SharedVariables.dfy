/** The variables of a leaf are known by the names of fields and overlays only. When the encodings tested together may
    share them. */
module SharedVariables {
  import opened Words
  import opened Folding
  import opened Status
  import opened Extract
  import opened Overlays
  import opened InstructionEncodings
  import opened DecisionTrees
  import opened DecoderCorrectness
  import opened EncodingGroups
  import opened InstructionGroups

  /** Fields read alike exactly when they are the same bits. */
  lemma {:induction false} FieldsReadAlike(f: Field, g: Field)
    requires FieldSource(f).Valid() && FieldSource(g).Valid()
    ensures ReadAlike(FieldSource(f), FieldSource(g)) <==> f.width == g.width && (f.width == 0 || f.low == g.low)
  {
    var s, t := FieldSource(f), FieldSource(g);
    if f.width != g.width {
      var k := if f.width < g.width then f.width else g.width;
      var w: Word := Low(64);
      assert (k in s.Value(w)) != (k in t.Value(w));
    } else if f.width > 0 && f.low != g.low {
      var w: Word := {f.low};
      assert 0 in s.Value(w) && 0 !in t.Value(w);
    }
  }

  // ----- a condition on the list of encodings -----

  /** The constraint is one of the encoding or of its specializations. */
  ghost predicate Has(e: Encoding, c: Constraint) {
    c in e.equal || c in e.extracted || c in e.other || exists i :: 0 <= i < |e.specials| && c in e.specials[i].conditions
  }

  /** Some constraint of the encoding reads the source. */
  ghost predicate ReadBy(s: Source, e: Encoding) {
    exists c :: Has(e, c) && s in ConstraintSources(c)
  }

  lemma {:induction false} SourceMember(cs: seq<Constraint>, s: Source)
    requires s in Sources(cs)
    ensures exists c :: c in cs && s in ConstraintSources(c)
  {
    if s in ConstraintSources(cs[0]) {
      assert cs[0] in cs;
    } else {
      SourceMember(cs[1..], s);
      var c :| c in cs[1..] && s in ConstraintSources(c);
      assert c in cs;
    }
  }

  lemma {:induction false} KeptMember(cs: seq<Constraint>, extracted: set<string>, handled: Word, c: Constraint)
    requires AllValid(cs) && c in Kept(cs, extracted, handled)
    ensures c in cs
  {
    if c != cs[0] { KeptMember(cs[1..], extracted, handled, c); }
  }

  lemma {:induction false} SpecialMember(ss: seq<Special>, s: Source)
    requires s in SpecialSources(ss)
    ensures exists i, c :: 0 <= i < |ss| && c in ss[i].conditions && s in ConstraintSources(c)
  {
    if s in Sources(ss[0].conditions) {
      SourceMember(ss[0].conditions, s);
    } else {
      SpecialMember(ss[1..], s);
      var i, c :| 0 <= i < |ss[1..]| && c in ss[1..][i].conditions && s in ConstraintSources(c);
      assert c in ss[i + 1].conditions;
    }
  }

  lemma {:induction false} ArmSource(e: Encoding, extracted: set<string>, handled: Word, s: Source)
    requires e.Valid() && s in ReadSources(e, extracted, handled)
    ensures ReadBy(s, e)
  {
    var conditions := Conditions(e, extracted, handled);
    if s in Sources(conditions) {
      SourceMember(conditions, s);
      var c :| c in conditions && s in ConstraintSources(c);
      if c in Kept(e.equal, extracted, handled) { KeptMember(e.equal, extracted, handled, c); }
      assert Has(e, c);
    } else {
      SpecialMember(e.specials, s);
      var i, c :| 0 <= i < |e.specials| && c in e.specials[i].conditions && s in ConstraintSources(c);
      assert Has(e, c);
    }
  }

  /** What a leaf reads is read by one of its encodings. */
  lemma {:induction false} LeafSource(encs: seq<Encoding>, extracted: set<string>, handled: Word, s: Source)
    requires AllEncodings(encs) && s in ArmSources(ArmsFor(encs, extracted, handled))
    ensures exists e :: e in encs && ReadBy(s, e)
    decreases encs
  {
    var e := encs[0];
    var names := extracted + Names(ReadSources(e, extracted, handled));
    var rest := ArmsFor(encs[1..], names, handled);
    assert ([ArmFor(e, extracted, handled)] + rest)[1..] == rest;
    if s in ReadSources(e, extracted, handled) {
      ArmSource(e, extracted, handled, s);
      assert e in encs;
    } else {
      LeafSource(encs[1..], names, handled, s);
      var f :| f in encs[1..] && ReadBy(s, f);
      assert f in encs;
    }
  }

  /** Both sources are assigned and have the same value in every word; folded. */
  ghost predicate Interchangeable(s: Source, t: Source) {
    forall k: Token {:trigger Unfold(k)} :: k == Alike && Unfold(k) ==> Readable(s) && Readable(t) && ReadAlike(s, t)
  }

  /** What the encodings read under one name is one field or overlay. */
  ghost predicate MayShare(e: Encoding, f: Encoding) {
    forall s, t | ReadBy(s, e) && ReadBy(t, f) && s.Name() == t.Name() :: Interchangeable(s, t)
  }

  /** The encodings of the group that agree with e in all the bits common to the group. */
  function Twins(group: seq<Encoding>, e: Encoding): seq<Encoding> {
    Filter(group, Common(group), Index(e.value, Common(group)))
  }

  /** In every top-level group, twins that agree in all the bits common to the twins may share variables. */
  ghost predicate PairsMayShare(encs: seq<Encoding>) {
    forall k | 0 <= k < |FirstFitAll([], ByMask(encs))| :: GroupMayShare(FirstFitAll([], ByMask(encs))[k])
  }

  ghost predicate GroupMayShare(group: seq<Encoding>) {
    forall e, f | e in group && f in Twins(group, e) && e.value * Common(Twins(group, e)) == f.value * Common(Twins(group, e)) ::
      MayShare(e, f)
  }

  /** All encodings have the same values in these bits. */
  ghost predicate Uniform(encs: seq<Encoding>, bits: Word) {
    forall e, f | e in encs && f in encs :: e.value * bits == f.value * bits
  }

  /** What a part of the group is to be when it is a subgroup: encodings that are twins of each other. */
  ghost predicate PartOf(encs: seq<Encoding>, group: seq<Encoding>) {
    (forall e | e in encs :: e in group) && Uniform(encs, Common(group))
  }

  /** Encodings that are tested together agree in all the bits common to their leaf. */
  lemma {:induction false} CaseAlike(n: Node, i: nat, e: Encoding, f: Encoding)
    requires WellFormed(n) && e in CaseOf(n, i) && f in CaseOf(n, i)
    ensures e in n.encs && f in n.encs && e.value * Common(n.encs) == f.value * Common(n.encs)
  {
    SummaryFacts(n);
    FilterMember(n.encs, n.discriminator, i, e);
    FilterMember(n.encs, n.discriminator, i, f);
    IndexInjective(e.value, f.value, n.discriminator);
    JoinAgreement(e.value, f.value, n.ignore, n.constant, n.discriminator);
    var bits: Word := n.ignore + n.constant + n.discriminator;
    assert Common(n.encs) <= bits;
    assert e.value * Common(n.encs) == (e.value * bits) * Common(n.encs);
    assert f.value * Common(n.encs) == (f.value * bits) * Common(n.encs);
  }

  /** A subgroup has at least the common bits of its group. */
  lemma {:induction false} CommonGrows(part: seq<Encoding>, group: seq<Encoding>)
    requires part != [] && forall e | e in part :: e in group
    ensures Common(group) <= Common(part)
  {
    assert part[0] in part;
  }

  lemma {:induction false} PartAreTwins(part: seq<Encoding>, group: seq<Encoding>, e: Encoding, f: Encoding)
    requires PartOf(part, group) && e in part && f in part
    ensures f in Twins(group, e)
  {
    IndexInjective(e.value, f.value, Common(group));
    FilterMember(group, Common(group), Index(e.value, Common(group)), f);
  }

  lemma {:induction false} CasePairMayShare(n: Node, group: seq<Encoding>, i: nat, e: Encoding, f: Encoding)
    requires WellFormed(n) && GroupMayShare(group) && PartOf(n.encs, group)
    requires e in CaseOf(n, i) && f in CaseOf(n, i)
    ensures MayShare(e, f)
  {
    var twins := Twins(group, e);
    CaseAlike(n, i, e, f);
    forall x | x in n.encs ensures x in twins { PartAreTwins(n.encs, group, e, x); }
    CommonGrows(n.encs, twins);
    assert e.value * Common(twins) == (e.value * Common(n.encs)) * Common(twins);
    assert f.value * Common(twins) == (f.value * Common(n.encs)) * Common(twins);
  }

  lemma {:induction false} CaseReader(n: Node, i: nat, s: Source) returns (e: Encoding)
    requires AllEncodings(CaseOf(n, i)) && s in LeafSources(CaseOf(n, i), n.ignore + n.discriminator)
    ensures e in CaseOf(n, i) && ReadBy(s, e)
  {
    LeafSource(CaseOf(n, i), {}, n.ignore + n.discriminator, s);
    e :| e in CaseOf(n, i) && ReadBy(s, e);
  }

  lemma {:induction false} ReadersShare(n: Node, group: seq<Encoding>, i: nat, s: Source, t: Source)
    requires WellFormed(n) && AllEncodings(CaseOf(n, i)) && GroupMayShare(group) && PartOf(n.encs, group)
    requires s in LeafSources(CaseOf(n, i), n.ignore + n.discriminator) && t in LeafSources(CaseOf(n, i), n.ignore + n.discriminator)
    requires s.Name() == t.Name()
    ensures Interchangeable(s, t)
  {
    var e := CaseReader(n, i, s);
    var f := CaseReader(n, i, t);
    CasePairMayShare(n, group, i, e, f);
  }

  lemma {:induction false} OpenAlike(s: Source, t: Source)
    requires Interchangeable(s, t)
    ensures Readable(s) && Readable(t) && ReadAlike(s, t)
  {
    assert Unfold(Alike);
  }

  lemma {:induction false} InterchangeableMean(ss: seq<Source>)
    requires forall s, t | s in ss && t in ss && s.Name() == t.Name() :: Interchangeable(s, t)
    ensures SameMeaning(ss)
  {
    forall s | s in ss ensures Readable(s) { OpenAlike(s, s); }
    forall s, t | s in ss && t in ss && s.Name() == t.Name() ensures ReadAlike(s, t) { OpenAlike(s, t); }
  }

  lemma {:induction false} CaseMayShare(n: Node, group: seq<Encoding>, i: nat)
    requires WellFormed(n) && AllEncodings(CaseOf(n, i)) && GroupMayShare(group) && PartOf(n.encs, group)
    ensures CaseShareable(n, i)
  {
    var ss := LeafSources(CaseOf(n, i), n.ignore + n.discriminator);
    forall s, t | s in ss && t in ss && s.Name() == t.Name() ensures Interchangeable(s, t) { ReadersShare(n, group, i, s, t); }
    InterchangeableMean(ss);
  }

  lemma {:induction false} CaseValid(n: Node, i: nat)
    requires AllEncodings(n.encs)
    ensures AllEncodings(CaseOf(n, i))
  {
    forall e | e in CaseOf(n, i) ensures e.Valid() { FilterMember(n.encs, n.discriminator, i, e); }
  }

  lemma {:induction false} TreeMayShare(n: Node, group: seq<Encoding>)
    requires WellFormed(n) && AllEncodings(n.encs) && GroupMayShare(group) && PartOf(n.encs, group)
    ensures Shareable(n)
    decreases n
  {
    if n.children == [] {
      forall i: nat
        ensures CaseShareable(n, i)
      {
        CaseValid(n, i);
        CaseMayShare(n, group, i);
      }
    } else {
      forall k | 0 <= k < |n.children|
        ensures Shareable(n.children[k])
      {
        ChildValid(n, k);
        forall e | e in n.children[k].encs ensures e in n.encs { ChildMember(n, n.children[k], e); }
        TreeMayShare(n.children[k], group);
      }
    }
  }

  lemma {:induction false} SmallerUniform(encs: seq<Encoding>, more: Word, bits: Word)
    requires Uniform(encs, more) && bits <= more
    ensures Uniform(encs, bits)
  {
    forall e, f | e in encs && f in encs
      ensures e.value * bits == f.value * bits
    {
      assert e.value * bits == (e.value * more) * bits && f.value * bits == (f.value * more) * bits;
    }
  }

  /** The subgroups of a top-level group consist of twins; so does a group that has none. */
  lemma {:induction false} RootMayShare(n: Node, group: seq<Encoding>)
    requires n.ignore == {} && WellFormed(n) && Split(n) && AllEncodings(n.encs) && GroupMayShare(group)
    requires multiset(n.encs) == multiset(group)
    ensures Shareable(n)
  {
    SamePermutation(n.encs, group);
    SummaryFacts(n);
    if n.children == [] {
      assert Uniform(n.encs, n.constant) && Common(group) <= n.constant;
      SmallerUniform(n.encs, n.constant, Common(group));
      TreeMayShare(n, group);
    } else {
      forall k | 0 <= k < |n.children|
        ensures Shareable(n.children[k])
      {
        var c := n.children[k];
        ChildValid(n, k);
        forall e | e in c.encs ensures e in group { ChildMember(n, c, e); }
        SmallerUniform(c.encs, c.ignore, Common(group));
        TreeMayShare(c, group);
      }
    }
  }

  /** A condition on the list alone under which the decoder is right on all words: in a top-level group, encodings that
      read different bits under one name differ in a bit common to the group or to the twins in it. */
  lemma {:induction false} PairsSuffice(encs: seq<Encoding>)
    requires AllEncodings(encs) && PairsMayShare(encs)
    ensures CanShare(encs)
  {
    var groups := FirstFitAll([], ByMask(encs));
    forall n | GroupTree(n, encs)
      ensures Shareable(n)
    {
      var k :| 0 <= k < |groups| && multiset(n.encs) == multiset(groups[k]);
      SamePermutation(n.encs, groups[k]);
      forall e | e in n.encs ensures e.Valid() { GroupMember(encs, k, e); }
      RootMayShare(n, groups[k]);
    }
  }

  lemma {:induction false} GroupMember(encs: seq<Encoding>, k: nat, e: Encoding)
    requires k < |FirstFitAll([], ByMask(encs))| && e in FirstFitAll([], ByMask(encs))[k]
    ensures e in encs
  {
    var groups := FirstFitAll([], ByMask(encs));
    FirstFitAllGood([], ByMask(encs));
    ByMaskKeepsAll(encs);
    FlattenMember(groups, k, e);
    assert e in multiset(Flatten(groups)) && e in multiset(encs);
  }

  lemma {:induction false} FlattenMember(groups: seq<seq<Encoding>>, k: nat, e: Encoding)
    requires k < |groups| && e in groups[k]
    ensures e in Flatten(groups)
  {
    if k > 0 { FlattenMember(groups[1..], k - 1, e); }
  }

  // ----- two encodings of one leaf -----

  /** A comparison of s with a number. */
  ghost predicate Compares(c: Constraint, s: Source) {
    c.Valid() && c.lhs == s && c.rhs.Number?
  }

  /** Two encodings with the same opcode bits, one more comparison each. */
  ghost function Pair(op: Constraint, c: Constraint, d: Constraint): (r: seq<Encoding>)
    requires IsMasked(op) && c.Valid() && d.Valid()
    ensures AllEncodings(r)
  {
    [OpcodeAnd("first", op, [c]), OpcodeAnd("second", op, [d])]
  }

  /** The two sources have one name, which is not that of the opcode. */
  ghost predicate SharedName(op: Constraint, f: Source, g: Source) {
    && IsMasked(op) && op.lhs.Mask() != {} && Readable(op.lhs)
    && Readable(f) && Readable(g) && f.Name() == g.Name() != op.lhs.Name()
  }

  lemma {:induction false} PairGroups(e: Encoding, f: Encoding)
    requires e.mask == f.mask != {}
    ensures FirstFitAll([], ByMask([e, f])) == [[e, f]]
  {
    assert [e, f][..1] == [e] && [e][..0] == [] && ByMask([e]) == [e] && [e][1..] == [];
    assert ByMask([e, f]) == InsertByMask([e], f) == [e] + InsertByMask([], f);
    assert ByMask([e, f])[1..] == [f] && [f][1..] == [];
    SummarySingle(e);
    assert e.mask * f.mask == e.mask;
    assert FirstFit([], e) == [[e]] && FirstFit([[e]], f) == [[e] + [f]] + [];
    assert [e] + [f] == [e, f] && [[e] + [f]] + [] == [[e, f]];
    assert FirstFitAll([[e]], [f]) == FirstFitAll([[e, f]], []);
  }

  lemma {:induction false} PairSummary(encs: seq<Encoding>, e: Encoding, f: Encoding)
    requires encs == [e, f] && e.mask == f.mask && e.value == f.value
    ensures Common(encs) == e.mask && Differ(encs) == {}
  {
    assert encs[0] in encs;
  }

  lemma {:induction false} TwoOrders(encs: seq<Encoding>, e: Encoding, f: Encoding)
    requires multiset(encs) == multiset([e, f])
    ensures encs == [e, f] || encs == [f, e]
  {
    SamePermutation(encs, [e, f]);
    assert encs == [encs[0], encs[1]] && encs[0] in encs && encs[1] in encs;
    assert multiset(encs) == multiset{encs[0], encs[1]};
    if encs[0] == encs[1] { assert multiset(encs)[encs[0]] == 2; }
  }

  /** The tree of two encodings with the same mask and value is a leaf that holds both. */
  lemma {:induction false} PairTree(n: Node, e: Encoding, f: Encoding)
    requires GroupTree(n, [e, f]) && e.mask == f.mask != {} && e.value == f.value
    ensures n.children == [] && n.ignore == {} && n.discriminator == {} && n.constant == e.mask
    ensures n.encs == [e, f] || n.encs == [f, e]
  {
    PairGroups(e, f);
    TwoOrders(n.encs, e, f);
    if n.encs == [e, f] { PairSummary(n.encs, e, f); } else { PairSummary(n.encs, f, e); }
  }

  /** Such encodings have one decoder. */
  lemma {:induction false} PairRun(decoders: seq<Code>, trees: seq<Node>, e: Encoding, f: Encoding, w: Word)
    requires Generated(decoders, trees, [e, f]) && e.mask == f.mask != {} && e.value == f.value
    ensures |trees| == |decoders| == 1 && GroupTree(trees[0], [e, f]) && RunAll(decoders, w) == Run(decoders[0], w)
    ensures WellFormed(trees[0]) && AllEncodings(trees[0].encs) && IsCodeFor(decoders[0], trees[0])
  {
    PairGroups(e, f);
    TailCodes(decoders, trees);
    OpenCode(decoders[0], trees[0]);
    assert decoders[1..] == [];
  }

  // ----- how the pair is decoded -----

  lemma {:induction false} PairConditions(name: string, op: Constraint, c: Constraint, extracted: set<string>)
    requires IsMasked(op) && op.lhs.Mask() != {} && c.Valid() && c.rhs.Number?
    ensures var e := OpcodeAnd(name, op, [c]);
            Conditions(e, extracted, {}) == [op, c] && ReadSources(e, extracted, {}) == [op.lhs, c.lhs]
  {
    var e := OpcodeAnd(name, op, [c]);
    assert !CanIgnore(op, extracted, {});
    assert [op][1..] == [] && Kept([op], extracted, {}) == [op] + [];
    assert [op] + [] + [c] == [op, c];
    assert [op, c][1..] == [c] && [c][1..] == [] && Sources([c]) == [c.lhs] + [];
    assert ConstraintSources(op) == [op.lhs] + [] && ConstraintSources(c) == [c.lhs] + [];
    assert Sources([op, c]) + [] == [op.lhs, c.lhs];
  }

  lemma {:induction false} FreshPair(s: Source, t: Source)
    requires s.Name() != t.Name()
    ensures Fresh([s, t], {}) == [s, t] && Fresh([s, t], {s.Name(), t.Name()}) == []
    ensures Names([s, t]) == {s.Name(), t.Name()}
  {
    assert [s, t][1..] == [t] && [t][1..] == [];
    assert {} + {s.Name()} == {s.Name()};
    assert Fresh([t], {s.Name()}) == [t] + [] && Fresh([t], {s.Name(), t.Name()}) == [];
    assert Names([t]) == {t.Name()} + {};
  }

  lemma {:induction false} PairArms(first: string, second: string, op: Constraint, c: Constraint, d: Constraint)
    requires SharedName(op, c.lhs, d.lhs) && Compares(c, c.lhs) && Compares(d, d.lhs)
    requires AllEncodings([OpcodeAnd(first, op, [c]), OpcodeAnd(second, op, [d])])
    ensures var e, f := OpcodeAnd(first, op, [c]), OpcodeAnd(second, op, [d]);
            ArmsFor([e, f], {}, {}) == [Arm([op.lhs, c.lhs], [op, c], [], e), Arm([], [op, d], [], f)]
  {
    var e, f := OpcodeAnd(first, op, [c]), OpcodeAnd(second, op, [d]);
    var names := {op.lhs.Name(), c.lhs.Name()};
    PairConditions(first, op, c, {});
    PairConditions(second, op, d, names);
    FreshPair(op.lhs, c.lhs);
    FreshPair(op.lhs, d.lhs);
    assert [e, f][1..] == [f] && [f][1..] == [] && {} + names == names;
    assert ArmsFor([f], names, {}) == [ArmFor(f, names, {})] + [];
  }

  lemma {:induction false} ExtractPair(s: Source, t: Source, w: Word)
    requires Readable(s) && Readable(t)
    ensures RunExtractions([s, t], map[], w) == map[s.Name() := s.Value(w)][t.Name() := t.Value(w)]
  {
    assert [s, t][1..] == [t] && [t][1..] == [];
    var env: Env := map[s.Name() := s.Value(w)];
    assert RunExtractions([t], env, w) == env[t.Name() := t.Value(w)];
  }

  lemma {:induction false} TestPair(op: Constraint, c: Constraint, env: Env)
    requires op.rhs.Number? && c.rhs.Number? && op.lhs.Name() in env && c.lhs.Name() in env
    ensures TestAll([op, c], env) == Some(Compare(op.op, env[op.lhs.Name()], op.rhs.value) && Compare(c.op, env[c.lhs.Name()], c.rhs.value))
  {
    assert [op, c][1..] == [c] && [c][1..] == [];
    assert TestAll([c], env) == Some(Compare(c.op, env[c.lhs.Name()], c.rhs.value));
  }

  /** The second comparison is made with the value of the first source. */
  lemma {:induction false} PairOutcome(first: string, second: string, op: Constraint, c: Constraint, d: Constraint, w: Word)
    requires SharedName(op, c.lhs, d.lhs) && Compares(c, c.lhs) && Compares(d, d.lhs) && op.Holds(w)
    requires AllEncodings([OpcodeAnd(first, op, [c]), OpcodeAnd(second, op, [d])])
    requires !Compare(c.op, c.lhs.Value(w), c.rhs.value) && Compare(d.op, c.lhs.Value(w), d.rhs.value)
    ensures var e, f := OpcodeAnd(first, op, [c]), OpcodeAnd(second, op, [d]);
            RunArms(ArmsFor([e, f], {}, {}), map[], w) == Found(f, None)
  {
    var e, f := OpcodeAnd(first, op, [c]), OpcodeAnd(second, op, [d]);
    var env: Env := map[op.lhs.Name() := op.lhs.Value(w)][c.lhs.Name() := c.lhs.Value(w)];
    var arms := [Arm([op.lhs, c.lhs], [op, c], [], e), Arm([], [op, d], [], f)];
    PairArms(first, second, op, c, d);
    ExtractPair(op.lhs, c.lhs, w);
    TestPair(op, c, env);
    TestPair(op, d, env);
    assert arms[1..] == [Arm([], [op, d], [], f)];
  }

  /** The comparison that just the value of the source in the word fails. */
  ghost function Unequal(s: Source, w: Word): (c: Constraint)
    requires s.Valid()
    ensures Compares(c, s)
  {
    SourceBits(s, {});
    Constraint(Ne, s, Number(s.Value(w)))
  }

  lemma {:induction false} UnequalIff(s: Source, w: Word, x: Bits)
    requires s.Valid() && Fits(x, 64)
    ensures Compare(Unequal(s, w).op, x, Unequal(s, w).rhs.value) <==> x != s.Value(w)
  {
    SourceBits(s, {});
    NumInjective(x, s.Value(w), 64);
  }

  /** The second of the two encodings is found. */
  lemma {:induction false} UnlikeRun(first: string, second: string, op: Constraint, f: Source, g: Source, w: Word)
    requires SharedName(op, f, g) && op.Holds(w) && f.Value(w) != g.Value(w)
    requires AllEncodings([OpcodeAnd(first, op, [Unequal(f, w)]), OpcodeAnd(second, op, [Unequal(g, w)])])
    ensures RunArms(ArmsFor([OpcodeAnd(first, op, [Unequal(f, w)]), OpcodeAnd(second, op, [Unequal(g, w)])], {}, {}), map[], w).Found?
  {
    SourceBits(f, {});
    UnequalIff(f, w, f.Value(w));
    UnequalIff(g, w, f.Value(w));
    PairOutcome(first, second, op, Unequal(f, w), Unequal(g, w), w);
  }

  lemma {:induction false} UnequalMatch(op: Constraint, name: string, s: Source, w: Word)
    requires IsMasked(op) && s.Valid()
    ensures !OpcodeAnd(name, op, [Unequal(s, w)]).Matches(w)
  {
    var c := Unequal(s, w);
    SourceBits(s, {});
    UnequalIff(s, w, s.Value(w));
    OpcodeMatches(name, op, [c], w);
    assert AllHold([c], w) ==> [c][0].Holds(w);
  }

  lemma {:induction false} UnlikeFound(op: Constraint, f: Source, g: Source, decoders: seq<Code>, trees: seq<Node>, w: Word)
    requires SharedName(op, f, g) && op.Holds(w) && f.Value(w) != g.Value(w)
    requires Generated(decoders, trees, Pair(op, Unequal(f, w), Unequal(g, w)))
    ensures RunAll(decoders, w).Found?
  {
    var pair := Pair(op, Unequal(f, w), Unequal(g, w));
    SourceBits(op.lhs, op.rhs.value);
    PairRun(decoders, trees, pair[0], pair[1], w);
    PairTree(trees[0], pair[0], pair[1]);
    LeafRuns(trees[0], decoders[0], op, w);
    if trees[0].encs == [pair[0], pair[1]] {
      UnlikeRun("first", "second", op, f, g, w);
    } else {
      UnlikeRun("second", "first", op, g, f, w);
    }
  }

  lemma {:induction false} WrongPair(outcome: Outcome, e: Encoding, f: Encoding, w: Word)
    requires AllEncodings([e, f]) && e.Valid() && f.Valid() && !e.Matches(w) && !f.Matches(w) && outcome.Found?
    ensures !Right(outcome, [e, f], w)
  {
  }

  /** A generated decoder for two comparisons of sources that have one name but different values in the word: neither
      encoding matches, and one is found. */
  lemma {:induction false} UnlikeIsWrong(op: Constraint, f: Source, g: Source, decoders: seq<Code>, trees: seq<Node>, w: Word)
    requires SharedName(op, f, g) && op.Holds(w) && f.Value(w) != g.Value(w)
    requires Generated(decoders, trees, Pair(op, Unequal(f, w), Unequal(g, w)))
    ensures !Right(RunAll(decoders, w), Pair(op, Unequal(f, w), Unequal(g, w)), w)
  {
    UnlikeFound(op, f, g, decoders, trees, w);
    UnequalMatch(op, "first", f, w);
    UnequalMatch(op, "second", g, w);
    WrongPair(RunAll(decoders, w), OpcodeAnd("first", op, [Unequal(f, w)]), OpcodeAnd("second", op, [Unequal(g, w)]), w);
  }

  /** A word with the opcode gets to the arms. */
  lemma {:induction false} LeafRuns(n: Node, code: Code, op: Constraint, w: Word)
    requires WellFormed(n) && AllEncodings(n.encs) && IsCodeFor(code, n)
    requires n.children == [] && n.ignore == {} && n.discriminator == {}
    requires IsMasked(op) && n.constant == op.lhs.Mask() && n.encs[0].value == op.lhs.Spread(op.rhs.value)
    ensures op.Holds(w) <==> w * n.constant == n.encs[0].value * n.constant
    ensures op.Holds(w) ==> Run(code, w) == RunArms(ArmsFor(n.encs, {}, {}), map[], w)
  {
    SourceBits(op.lhs, op.rhs.value);
    MaskedHolds(op, w);
    assert n.encs[0].value * n.constant == n.encs[0].value;
    assert n.ignore + n.discriminator == {};
  }

  /** A decoder that may be generated for the pair. */
  lemma {:induction false} PairDecoder(op: Constraint, c: Constraint, d: Constraint) returns (decoders: seq<Code>, trees: seq<Node>)
    requires IsMasked(op) && op.lhs.Mask() != {} && c.Valid() && d.Valid()
    ensures Generated(decoders, trees, Pair(op, c, d))
  {
    var pair := Pair(op, c, d);
    var n := PairNode(pair, pair[0], pair[1]);
    var code := Code(n.constant, pair[0].value * n.constant, IfChain(ArmsFor(pair, {}, {})));
    decoders, trees := [code], [n];
    PairGroups(pair[0], pair[1]);
    assert n.ignore + n.discriminator == {};
    assert IsCodeFor(code, n);
    assert trees[1..] == [] && Members(trees) == pair + [];
  }

  lemma {:induction false} PairNode(pair: seq<Encoding>, e: Encoding, f: Encoding) returns (n: Node)
    requires pair == [e, f] && e.mask == f.mask != {} && e.value == f.value
    ensures GroupTree(n, pair) && n.encs == pair && n.children == [] && n.discriminator == {} && n.ignore == {}
  {
    n := Node({}, e.mask, {}, e.mask, {}, pair, []);
    PairSummary(pair, e, f);
    PairGroups(e, f);
    assert e in pair && WellFormed(n);
    assert FirstFitAll([], ByMask(pair))[0] == pair;
  }

  lemma {:induction false} PairReads(name: string, op: Constraint, c: Constraint, s: Source)
    requires IsMasked(op) && c.Valid() && c.rhs.Number? && ReadBy(s, OpcodeAnd(name, op, [c]))
    ensures s == op.lhs || s == c.lhs
  {
  }

  lemma {:induction false} PairSources(op: Constraint, c: Constraint, d: Constraint, encs: seq<Encoding>, handled: Word, s: Source)
    requires IsMasked(op) && Compares(c, c.lhs) && Compares(d, d.lhs)
    requires AllEncodings(encs) && (forall e | e in encs :: e in Pair(op, c, d)) && s in LeafSources(encs, handled)
    ensures s == op.lhs || s == c.lhs || s == d.lhs
  {
    LeafSource(encs, {}, handled, s);
    var e :| e in encs && ReadBy(s, e);
    if e == Pair(op, c, d)[0] { PairReads("first", op, c, s); } else { PairReads("second", op, d, s); }
  }

  /** Sources with one value in the word are shared rightly. */
  lemma {:induction false} AlikeAgrees(op: Constraint, c: Constraint, d: Constraint, n: Node, w: Word)
    requires SharedName(op, c.lhs, d.lhs) && Compares(c, c.lhs) && Compares(d, d.lhs) && c.lhs.Value(w) == d.lhs.Value(w)
    requires WellFormed(n) && AllEncodings(n.encs) && n.children == [] && n.discriminator == {}
    requires forall e | e in n.encs :: e in Pair(op, c, d)
    ensures Agrees(n, w)
  {
    var ss := LeafSources(n.encs, n.ignore + n.discriminator);
    forall s | s in ss
      ensures s == op.lhs || s == c.lhs || s == d.lhs
    {
      PairSources(op, c, d, n.encs, n.ignore + n.discriminator, s);
    }
    ThreeMeanings(ss, op.lhs, c.lhs, d.lhs, w);
  }

  lemma {:induction false} ThreeMeanings(ss: seq<Source>, o: Source, f: Source, g: Source, w: Word)
    requires Readable(o) && Readable(f) && Readable(g) && f.Value(w) == g.Value(w)
    requires f.Name() == g.Name() != o.Name() && forall s | s in ss :: s == o || s == f || s == g
    ensures OneMeaning(ss, w)
  {
  }

  lemma {:induction false} PairAgrees(op: Constraint, c: Constraint, d: Constraint, n: Node, code: Code, w: Word)
    requires SharedName(op, c.lhs, d.lhs) && Compares(c, c.lhs) && Compares(d, d.lhs)
    requires op.Holds(w) ==> c.lhs.Value(w) == d.lhs.Value(w)
    requires GroupTree(n, Pair(op, c, d)) && AllEncodings(n.encs) && IsCodeFor(code, n)
    ensures Agrees(n, w)
  {
    PairTree(n, Pair(op, c, d)[0], Pair(op, c, d)[1]);
    LeafRuns(n, code, op, w);
    if op.Holds(w) { AlikeAgrees(op, c, d, n, w); }
  }

  lemma {:induction false} PairMeaning(op: Constraint, c: Constraint, d: Constraint, n: Node, code: Code, w: Word)
    requires SharedName(op, c.lhs, d.lhs) && Compares(c, c.lhs) && Compares(d, d.lhs)
    requires op.Holds(w) ==> c.lhs.Value(w) == d.lhs.Value(w)
    requires GroupTree(n, Pair(op, c, d)) && AllEncodings(n.encs) && IsCodeFor(code, n)
    ensures OneMeaningIn(n, w)
  {
    PairAgrees(op, c, d, n, code, w);
  }

  lemma {:induction false} AlikeMeaning(op: Constraint, c: Constraint, d: Constraint, decoders: seq<Code>, trees: seq<Node>, w: Word)
    requires SharedName(op, c.lhs, d.lhs) && Compares(c, c.lhs) && Compares(d, d.lhs)
    requires op.Holds(w) ==> c.lhs.Value(w) == d.lhs.Value(w)
    requires Generated(decoders, trees, Pair(op, c, d))
    ensures AllAgree(trees, w)
  {
    PairRun(decoders, trees, Pair(op, c, d)[0], Pair(op, c, d)[1], w);
    PairMeaning(op, c, d, trees[0], decoders[0], w);
  }

  lemma {:induction false} AlikeIsRight(op: Constraint, c: Constraint, d: Constraint, decoders: seq<Code>, trees: seq<Node>, w: Word)
    requires SharedName(op, c.lhs, d.lhs) && Compares(c, c.lhs) && Compares(d, d.lhs)
    requires op.Holds(w) ==> c.lhs.Value(w) == d.lhs.Value(w)
    requires Generated(decoders, trees, Pair(op, c, d))
    ensures Right(RunAll(decoders, w), Pair(op, c, d), w)
  {
    AlikeMeaning(op, c, d, decoders, trees, w);
    GeneratedRight(decoders, trees, Pair(op, c, d), w);
  }

  /** Two sources of one name are decoded rightly, whatever they are compared with and however the decoder is
      generated, exactly when they have the same value in every word with the opcode. */
  lemma {:induction false} SharingIff(op: Constraint, f: Source, g: Source)
    requires SharedName(op, f, g)
    ensures (forall w: Word | op.Holds(w) :: f.Value(w) == g.Value(w)) <==>
            forall c, d, decoders, trees | Compares(c, f) && Compares(d, g) && Generated(decoders, trees, Pair(op, c, d)) ::
              IsDecoderFor(decoders, Pair(op, c, d))
  {
    if w: Word :| op.Holds(w) && f.Value(w) != g.Value(w) {
      var decoders, trees := PairDecoder(op, Unequal(f, w), Unequal(g, w));
      UnlikeIsWrong(op, f, g, decoders, trees, w);
      assert !IsDecoderFor(decoders, Pair(op, Unequal(f, w), Unequal(g, w)));
    } else {
      forall c, d, decoders, trees, w: Word | Compares(c, f) && Compares(d, g) && Generated(decoders, trees, Pair(op, c, d))
        ensures Right(RunAll(decoders, w), Pair(op, c, d), w)
      {
        AlikeIsRight(op, c, d, decoders, trees, w);
      }
    }
  }

  /** Two formats have a field x, at bit 0 and at bit 1; bit 4 is the opcode. A word with bits 0 and 4 is decoded as
      an encoding that it does not match. */
  lemma {:induction false} SharedFieldWrong() returns (encs: seq<Encoding>, decoders: seq<Code>, trees: seq<Node>, w: Word)
    ensures Generated(decoders, trees, encs) && !Right(RunAll(decoders, w), encs, w)
  {
    var op := Constraint(Eq, FieldSource(Field("op", false, 4, 1)), Number({0}));
    var f, g := FieldSource(Field("x", false, 0, 1)), FieldSource(Field("x", false, 1, 1));
    w := {0, 4};
    assert op.lhs.Value(w) == {0} && 4 in op.lhs.Mask();
    assert 0 in f.Value(w) && 0 !in g.Value(w);
    encs := Pair(op, Unequal(f, w), Unequal(g, w));
    decoders, trees := PairDecoder(op, Unequal(f, w), Unequal(g, w));
    UnlikeIsWrong(op, f, g, decoders, trees, w);
  }
}
