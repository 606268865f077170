/** The decoder emitted for a well-formed tree is a linear scan over the encodings in tree order. */
module DecoderCorrectness {
  import opened Words
  import opened Status
  import opened Extract
  import opened Overlays
  import opened InstructionEncodings
  import opened DecisionTrees

  // ----- bits of matching encodings -----

  lemma {:induction false} MatchBits(e: Encoding, w: Word, d: Word)
    requires e.Valid() && d <= e.mask && e.Matches(w)
    ensures w * d == e.value * d
  {
    MaskedCompare(e.equal, w);
    assert w * d == (w * e.mask) * d;
  }

  lemma {:induction false} FilterMember(encs: seq<Encoding>, d: Word, i: nat, e: Encoding)
    ensures e in Filter(encs, d, i) <==> e in encs && Index(e.value, d) == i
    ensures multiset(Filter(encs, d, i))[e] == if Index(e.value, d) == i then multiset(encs)[e] else 0
  {
    if encs != [] {
      FilterMember(encs[1..], d, i, e);
      assert encs == [encs[0]] + encs[1..];
    }
  }

  /** The bits of a summarised group: common bits are significant to all, constant bits have one value,
      and nothing that was dealt with before varies. */
  lemma {:induction false} SummaryFacts(n: Node)
    requires Summarized(n) && PathInvariant(n.ignore, n.encs)
    ensures n.discriminator == n.mask * n.varying && n.mask == n.constant + n.discriminator
    ensures forall e | e in n.encs :: n.ignore <= e.mask && n.mask <= e.mask
    ensures forall e | e in n.encs :: e.value * n.constant == n.encs[0].value * n.constant
    ensures n.varying !! n.ignore
  {
    assert n.encs[0] in n.encs;
    forall e | e in n.encs
      ensures n.mask <= e.mask
      ensures e.value * n.constant == n.encs[0].value * n.constant
    {
      forall p: nat
        ensures p in e.value * n.constant <==> p in n.encs[0].value * n.constant
      {
        if p in n.constant { assert p !in Differ(n.encs); }
      }
    }
    forall p | p in n.varying
      ensures p !in n.ignore
    {
      var e, f :| e in n.encs && f in n.encs && p in e.value && p !in f.value;
      assert e.value * n.ignore == f.value * n.ignore;
      assert p in e.value * n.ignore <==> p in f.value * n.ignore;
    }
  }

  // ----- scanning -----

  lemma {:induction false} ScanAppend(a: seq<Encoding>, b: seq<Encoding>, w: Word)
    requires AllEncodings(a) && AllEncodings(b)
    ensures AllEncodings(a + b)
    ensures LinearScan(a + b, w) == if LinearScan(a, w) == NoMatch then LinearScan(b, w) else LinearScan(a, w)
  {
    if a == [] {
      assert a + b == b;
    } else {
      ScanAppend(a[1..], b, w);
      assert (a + b)[1..] == a[1..] + b;
    }
  }

  /** A scan finds nothing exactly when nothing matches; what it finds is listed and matches. */
  lemma {:induction false} ScanSound(encs: seq<Encoding>, w: Word)
    requires AllEncodings(encs)
    ensures LinearScan(encs, w) != Stuck
    ensures LinearScan(encs, w) == NoMatch <==> forall e | e in encs :: !e.Matches(w)
    ensures LinearScan(encs, w).Found? ==>
              var e := LinearScan(encs, w).encoding;
              e in encs && e.Matches(w) && LinearScan(encs, w).special == Chosen(e.specials, w)
  {
    if encs != [] { ScanSound(encs[1..], w); }
  }

  /** Encodings that differ from the word in the selected bits can be left out of a scan. */
  lemma {:induction false} ScanFilter(encs: seq<Encoding>, w: Word, d: Word)
    requires AllEncodings(encs) && forall e | e in encs :: d <= e.mask
    ensures AllEncodings(Filter(encs, d, Index(w, d)))
    ensures LinearScan(Filter(encs, d, Index(w, d)), w) == LinearScan(encs, w)
  {
    if encs != [] {
      var e := encs[0];
      ScanFilter(encs[1..], w, d);
      if e.Matches(w) {
        MatchBits(e, w, d);
        IndexInjective(e.value, w, d);
      }
      var rest := Filter(encs[1..], d, Index(w, d));
      if Index(e.value, d) == Index(w, d) {
        assert Filter(encs, d, Index(w, d)) == [e] + rest;
        assert ([e] + rest)[1..] == rest;
      } else {
        assert Filter(encs, d, Index(w, d)) == rest;
      }
    }
  }

  // ----- the variables of a leaf -----

  /** The two sources have the same value in every instruction word. */
  ghost predicate ReadAlike(s: Source, t: Source)
    requires s.Valid() && t.Valid()
  {
    forall w: Word :: s.Value(w) == t.Value(w)
  }

  /** Under its name the value of the source in the word is known. */
  ghost predicate Means(values: Env, s: Source, w: Word) {
    Readable(s) && s.Name() in values && values[s.Name()] == s.Value(w)
  }

  ghost predicate Covers(values: Env, ss: seq<Source>, w: Word) {
    forall s | s in ss :: Means(values, s, w)
  }

  ghost predicate EnvRight(env: Env, names: set<string>, values: Env) {
    && env.Keys == names
    && forall n | n in env :: n in values && env[n] == values[n]
  }

  /** All sources are assigned, and those of one name have one value in the word. */
  ghost predicate OneMeaning(ss: seq<Source>, w: Word) {
    && (forall s | s in ss :: Readable(s))
    && forall s, t | s in ss && t in ss && s.Name() == t.Name() :: s.Value(w) == t.Value(w)
  }

  /** The values that the names of some sources stand for in the word. */
  lemma {:induction false} NamedValues(ss: seq<Source>, w: Word) returns (values: Env)
    requires OneMeaning(ss, w)
    ensures Covers(values, ss, w)
  {
    values := map[];
    for i := 0 to |ss|
      invariant Covers(values, ss[..i], w)
    {
      assert ss[..i + 1] == ss[..i] + [ss[i]] && ss[i] in ss;
      values := values[ss[i].Name() := ss[i].Value(w)];
    }
    assert ss[..|ss|] == ss;
  }

  lemma {:induction false} ExtractionsRight(ss: seq<Source>, env: Env, extracted: set<string>, values: Env, w: Word)
    requires EnvRight(env, extracted, values) && Covers(values, ss, w)
    ensures EnvRight(RunExtractions(Fresh(ss, extracted), env, w), extracted + Names(ss), values)
    decreases ss
  {
    if ss == [] {
      assert extracted + Names(ss) == extracted;
    } else {
      var s := ss[0];
      assert s in ss && Means(values, s, w);
      if s.Name() in extracted {
        ExtractionsRight(ss[1..], env, extracted, values, w);
        assert extracted + Names(ss[1..]) == extracted + Names(ss);
      } else {
        var rest := Fresh(ss[1..], extracted + {s.Name()});
        ExtractionsRight(ss[1..], env[s.Name() := s.Value(w)], extracted + {s.Name()}, values, w);
        assert ([s] + rest)[1..] == rest;
        assert (extracted + {s.Name()}) + Names(ss[1..]) == extracted + Names(ss);
      }
    }
  }

  lemma {:induction false} NamesAppend(a: seq<Source>, b: seq<Source>)
    ensures Names(a + b) == Names(a) + Names(b)
  {
    if a == [] {
      assert a + b == b;
    } else {
      NamesAppend(a[1..], b);
      assert (a + b)[1..] == a[1..] + b;
    }
  }

  /** Conditions over variables with the right values are decided like the constraints. */
  lemma {:induction false} TestsRight(cs: seq<Constraint>, env: Env, names: set<string>, values: Env, w: Word)
    requires AllValid(cs) && EnvRight(env, names, values)
    requires Covers(values, Sources(cs), w) && Names(Sources(cs)) <= names
    ensures TestAll(cs, env) == Some(AllHold(cs, w))
  {
    if cs != [] {
      var c := cs[0];
      NamesAppend(ConstraintSources(c), Sources(cs[1..]));
      TestsRight(cs[1..], env, names, values, w);
      TestRight(c, env, names, values, w);
      AllHoldFirst(cs, w);
    }
  }

  lemma {:induction false} SpecialsRight(ss: seq<Special>, env: Env, names: set<string>, values: Env, w: Word)
    requires AllValidSpecials(ss) && EnvRight(env, names, values)
    requires Covers(values, SpecialSources(ss), w) && Names(SpecialSources(ss)) <= names
    ensures TestSpecials(ss, env) == Some(Chosen(ss, w))
  {
    if ss != [] {
      NamesAppend(Sources(ss[0].conditions), SpecialSources(ss[1..]));
      TestsRight(ss[0].conditions, env, names, values, w);
      SpecialsRight(ss[1..], env, names, values, w);
    }
  }

  lemma {:induction false} AllHoldFirst(cs: seq<Constraint>, w: Bits)
    requires AllValid(cs) && cs != []
    ensures AllValid(cs[1..]) && (AllHold(cs, w) <==> cs[0].Holds(w) && AllHold(cs[1..], w))
  {
    assert [cs[0]] + cs[1..] == cs;
    AllHoldSplit([cs[0]], cs[1..], w);
    assert AllHold([cs[0]], w) <==> [cs[0]][0].Holds(w);
  }

  lemma {:induction false} TestRight(c: Constraint, env: Env, names: set<string>, values: Env, w: Word)
    requires c.Valid() && EnvRight(env, names, values)
    requires Covers(values, ConstraintSources(c), w) && Names(ConstraintSources(c)) <= names
    ensures Test(c, env) == Some(c.Holds(w))
  {
    var ss := ConstraintSources(c);
    assert ss[0] == c.lhs && c.lhs in ss && c.lhs.Name() in Names(ss);
    assert Means(values, c.lhs, w);
    if c.rhs.Read? {
      assert ss[1..] == [c.rhs.source] && ss[1] in ss && Means(values, c.rhs.source, w);
      assert [c.rhs.source][0].Name() in Names(ss[1..]);
    }
  }

  lemma {:induction false} AllHoldSplit(a: seq<Constraint>, b: seq<Constraint>, w: Bits)
    requires AllValid(a) && AllValid(b)
    ensures AllValid(a + b) && (AllHold(a + b, w) <==> AllHold(a, w) && AllHold(b, w))
  {
    if AllHold(a + b, w) {
      forall i | 0 <= i < |b| ensures b[i].Holds(w) { assert (a + b)[|a| + i] == b[i]; }
      forall i | 0 <= i < |a| ensures a[i].Holds(w) { assert (a + b)[i] == a[i]; }
    }
  }

  // ----- dropped constraints -----

  /** An equality is dropped exactly when every bit that it reads has been dealt with, unless it reads a field whose variable
      exists already. */
  lemma {:induction false} DroppedIff(c: Constraint, extracted: set<string>, handled: Word)
    requires c.Valid()
    ensures CanIgnore(c, extracted, handled) <==>
            && !(c.lhs.FieldSource? && c.lhs.Name() in extracted)
            && forall p: nat | p !in handled :: p !in c.lhs.Mask()
  {
  }

  lemma {:induction false} KeptValid(cs: seq<Constraint>, extracted: set<string>, handled: Word)
    requires AllValid(cs)
    ensures AllValid(Kept(cs, extracted, handled))
  {
    if cs != [] { KeptValid(cs[1..], extracted, handled); }
  }

  /** Dropping constraints that hold does not change what is accepted. */
  lemma {:induction false} KeptDecides(cs: seq<Constraint>, extracted: set<string>, handled: Word, w: Word)
    requires AllValid(cs) && AllValid(Kept(cs, extracted, handled))
    requires forall i | 0 <= i < |cs| :: CanIgnore(cs[i], extracted, handled) ==> cs[i].Holds(w)
    ensures AllHold(Kept(cs, extracted, handled), w) <==> AllHold(cs, w)
  {
    if cs != [] {
      var rest := Kept(cs[1..], extracted, handled);
      if CanIgnore(cs[0], extracted, handled) {
        assert Kept(cs, extracted, handled) == rest;
      } else {
        assert Kept(cs, extracted, handled) == [cs[0]] + rest;
        assert forall i | 0 <= i < |rest| :: rest[i] == ([cs[0]] + rest)[i + 1];
        AllHoldSplit([cs[0]], rest, w);
      }
      KeptDecides(cs[1..], extracted, handled, w);
      AllHoldSplit([cs[0]], cs[1..], w);
      assert [cs[0]] + cs[1..] == cs;
    }
  }

  /** A constraint on bits that the word has been checked to share with the encoding holds. */
  lemma {:induction false} IgnoredHolds(e: Encoding, i: nat, extracted: set<string>, handled: Word, w: Word)
    requires e.Valid() && i < |e.equal| && CanIgnore(e.equal[i], extracted, handled)
    requires w * handled == e.value * handled
    ensures e.equal[i].Holds(w)
  {
    var c := e.equal[i];
    AgreeAt(e.equal, i);
    MaskedHolds(c, w);
    assert w * c.lhs.Mask() == (w * handled) * c.lhs.Mask();
    assert e.value * c.lhs.Mask() == (e.value * handled) * c.lhs.Mask();
  }

  // ----- the arms of a leaf -----

  /** The sources that the arms of a leaf read. */
  function ArmSources(arms: seq<Arm>): seq<Source> {
    if arms == [] then [] else Sources(arms[0].conditions) + SpecialSources(arms[0].specials) + ArmSources(arms[1..])
  }

  /** The sources read where the encodings are tested together; dropped constraints do not count. */
  ghost function LeafSources(encs: seq<Encoding>, handled: Word): seq<Source>
    requires AllEncodings(encs)
  {
    ArmSources(ArmsFor(encs, {}, handled))
  }

  lemma {:induction false} ArmRight(e: Encoding, extracted: set<string>, handled: Word, env: Env, values: Env, w: Word)
    requires e.Valid() && Covers(values, ReadSources(e, extracted, handled), w) && EnvRight(env, extracted, values)
    requires w * handled == e.value * handled
    ensures var arm := ArmFor(e, extracted, handled);
            var after := RunExtractions(arm.extractions, env, w);
            && EnvRight(after, extracted + Names(ReadSources(e, extracted, handled)), values)
            && TestAll(arm.conditions, after) == Some(e.Matches(w))
            && TestSpecials(arm.specials, after) == Some(Chosen(e.specials, w))
  {
    var kept := Kept(e.equal, extracted, handled);
    var cs := Conditions(e, extracted, handled);
    KeptValid(e.equal, extracted, handled);
    AllHoldSplit(kept, e.extracted, w);
    AllHoldSplit(kept + e.extracted, e.other, w);
    var sources := ReadSources(e, extracted, handled);
    NamesAppend(Sources(cs), SpecialSources(e.specials));
    ExtractionsRight(sources, env, extracted, values, w);
    var after := RunExtractions(Fresh(sources, extracted), env, w);
    TestsRight(cs, after, extracted + Names(sources), values, w);
    SpecialsRight(e.specials, after, extracted + Names(sources), values, w);
    forall i | 0 <= i < |e.equal| && CanIgnore(e.equal[i], extracted, handled)
      ensures e.equal[i].Holds(w)
    {
      IgnoredHolds(e, i, extracted, handled, w);
    }
    KeptDecides(e.equal, extracted, handled, w);
  }

  /** Running the arms of a leaf is scanning its encodings. */
  lemma {:induction false} ArmsRight(encs: seq<Encoding>, extracted: set<string>, handled: Word, env: Env, values: Env, w: Word)
    requires AllEncodings(encs) && Covers(values, ArmSources(ArmsFor(encs, extracted, handled)), w) && EnvRight(env, extracted, values)
    requires forall e | e in encs :: w * handled == e.value * handled
    ensures RunArms(ArmsFor(encs, extracted, handled), env, w) == LinearScan(encs, w)
    decreases encs
  {
    if encs != [] {
      var e := encs[0];
      var arm := ArmFor(e, extracted, handled);
      var names := extracted + Names(ReadSources(e, extracted, handled));
      var rest := ArmsFor(encs[1..], names, handled);
      assert ([arm] + rest)[0] == arm && ([arm] + rest)[1..] == rest;
      ArmRight(e, extracted, handled, env, values, w);
      var after := RunExtractions(arm.extractions, env, w);
      ArmsRight(encs[1..], names, handled, after, values, w);
    }
  }

  /** Where every name has one meaning in the word, the arms of a leaf scan its encodings. */
  lemma {:induction false} LeafRight(encs: seq<Encoding>, handled: Word, w: Word)
    requires AllEncodings(encs) && OneMeaning(LeafSources(encs, handled), w)
    requires forall e | e in encs :: w * handled == e.value * handled
    ensures RunArms(ArmsFor(encs, {}, handled), map[], w) == LinearScan(encs, w)
  {
    var values := NamedValues(LeafSources(encs, handled), w);
    ArmsRight(encs, {}, handled, map[], values, w);
  }

  // ----- the tree -----

  lemma {:induction false} OrdersMember(ns: seq<Node>, e: Encoding)
    ensures e in TreeOrders(ns) <==> exists k :: 0 <= k < |ns| && e in TreeOrder(ns[k])
  {
    if ns != [] {
      OrdersMember(ns[1..], e);
      if k :| 0 <= k < |ns| && e in TreeOrder(ns[k]) {
        if k > 0 { assert ns[1..][k - 1] == ns[k]; }
      }
      if k :| 0 <= k < |ns[1..]| && e in TreeOrder(ns[1..][k]) {
        assert ns[k + 1] == ns[1..][k];
      }
    }
  }

  /** A child holds exactly the parent's encodings with its discriminator value. */
  lemma {:induction false} ChildMember(n: Node, c: Node, e: Encoding)
    requires IsChild(n, c)
    ensures e in c.encs <==> e in n.encs && Index(e.value, n.discriminator) == ChildIndex(n, c)
  {
    FilterMember(n.encs, n.discriminator, ChildIndex(n, c), e);
    assert e in c.encs <==> e in multiset(c.encs);
    assert e in multiset(Filter(n.encs, n.discriminator, ChildIndex(n, c))) <==>
           e in Filter(n.encs, n.discriminator, ChildIndex(n, c));
  }

  /** Membership in tree order is membership in the group. */
  lemma {:induction false} TreeMember(n: Node, e: Encoding)
    requires WellFormed(n)
    ensures e in TreeOrder(n) <==> e in n.encs
    decreases n
  {
    if n.children != [] {
      forall k | 0 <= k < |n.children|
        ensures e in TreeOrder(n.children[k]) <==> e in n.children[k].encs
        ensures e in n.children[k].encs <==> e in n.encs && Index(e.value, n.discriminator) == ChildIndex(n, n.children[k])
      {
        TreeMember(n.children[k], e);
        ChildMember(n, n.children[k], e);
      }
      OrdersMember(n.children, e);
    }
  }

  lemma {:induction false} TreeValid(n: Node)
    requires WellFormed(n) && AllEncodings(n.encs)
    ensures AllEncodings(TreeOrder(n))
  {
    forall e | e in TreeOrder(n) ensures e.Valid() { TreeMember(n, e); }
  }

  /** How often an encoding occurs in the leaves of some subgroups of n: as often as in n if one of them
      has its discriminator value, otherwise never. */
  lemma {:induction false} OrdersCount(n: Node, ns: seq<Node>, e: Encoding)
    requires forall k | 0 <= k < |ns| :: ns[k].encs != [] && IsChild(n, ns[k]) && WellFormed(ns[k]) && ns[k] < n
    requires forall j, k | 0 <= j < k < |ns| :: ChildIndex(n, ns[j]) < ChildIndex(n, ns[k])
    ensures multiset(TreeOrders(ns))[e] ==
            if exists k :: 0 <= k < |ns| && ChildIndex(n, ns[k]) == Index(e.value, n.discriminator) then multiset(n.encs)[e] else 0
    decreases n, |ns|
  {
    if ns != [] {
      var c := ns[0];
      OrdersCount(n, ns[1..], e);
      TreePermutation(c);
      FilterMember(n.encs, n.discriminator, ChildIndex(n, c), e);
      assert multiset(TreeOrders(ns)) == multiset(TreeOrder(c)) + multiset(TreeOrders(ns[1..]));
      assert multiset(TreeOrder(c))[e] == multiset(Filter(n.encs, n.discriminator, ChildIndex(n, c)))[e];
      if k :| 0 <= k < |ns| && ChildIndex(n, ns[k]) == Index(e.value, n.discriminator) {
        if k > 0 { assert ns[1..][k - 1] == ns[k]; }
      }
      if k :| 0 <= k < |ns[1..]| && ChildIndex(n, ns[1..][k]) == Index(e.value, n.discriminator) {
        assert ns[k + 1] == ns[1..][k];
      }
    }
  }

  /** Splitting loses nothing: the leaves of a tree together hold each encoding exactly as often as the root. */
  lemma {:induction false} TreePermutation(n: Node)
    requires WellFormed(n)
    ensures multiset(TreeOrder(n)) == multiset(n.encs)
    decreases n
  {
    if n.children != [] {
      forall e: Encoding
        ensures multiset(TreeOrders(n.children))[e] == multiset(n.encs)[e]
      {
        OrdersCount(n, n.children, e);
        if e !in n.encs { assert e !in multiset(n.encs); }
      }
    }
  }

  /** The encodings of a leaf that are tested together on discriminator value i. */
  function CaseOf(n: Node, i: nat): seq<Encoding> {
    if n.discriminator == {} then n.encs else Filter(n.encs, n.discriminator, i)
  }

  ghost predicate CaseAgrees(n: Node, w: Word) {
    var same := CaseOf(n, Index(w, n.discriminator));
    AllEncodings(same) && OneMeaning(LeafSources(same, n.ignore + n.discriminator), w)
  }

  /** Where the word is tested, if it gets to a leaf, every name that is read has one meaning. */
  ghost predicate Agrees(n: Node, w: Word)
    requires WellFormed(n) && AllEncodings(n.encs)
    decreases n
  {
    || w * n.constant != n.encs[0].value * n.constant
    || if n.children == [] then CaseAgrees(n, w)
       else
         forall k | 0 <= k < |n.children| && ChildIndex(n, n.children[k]) == Index(w, n.discriminator) ::
           AllEncodings(n.children[k].encs) && Agrees(n.children[k], w)
  }

  /** All sources are assigned, and those of one name read alike. */
  ghost predicate SameMeaning(ss: seq<Source>) {
    && (forall s | s in ss :: Readable(s))
    && forall s, t | s in ss && t in ss && s.Name() == t.Name() :: ReadAlike(s, t)
  }

  ghost predicate CaseShareable(n: Node, i: nat) {
    AllEncodings(CaseOf(n, i)) && SameMeaning(LeafSources(CaseOf(n, i), n.ignore + n.discriminator))
  }

  /** In every leaf, or case of a switch, the names that are read mean one field or overlay. */
  ghost predicate Shareable(n: Node)
    decreases n
  {
    if n.children == [] then forall i: nat :: CaseShareable(n, i)
    else forall k | 0 <= k < |n.children| :: Shareable(n.children[k])
  }

  lemma {:induction false} ChildValid(n: Node, k: nat)
    requires WellFormed(n) && AllEncodings(n.encs) && k < |n.children|
    ensures WellFormed(n.children[k]) && AllEncodings(n.children[k].encs)
  {
    forall e | e in n.children[k].encs ensures e.Valid() { ChildMember(n, n.children[k], e); }
  }

  lemma {:induction false} SharedCase(n: Node, w: Word)
    requires CaseShareable(n, Index(w, n.discriminator))
    ensures CaseAgrees(n, w)
  {
    var ss := LeafSources(CaseOf(n, Index(w, n.discriminator)), n.ignore + n.discriminator);
    forall s, t | s in ss && t in ss && s.Name() == t.Name() ensures s.Value(w) == t.Value(w) { assert ReadAlike(s, t); }
  }

  /** Such a tree is right for all words. */
  lemma {:induction false} ShareableAgrees(n: Node, w: Word)
    requires WellFormed(n) && AllEncodings(n.encs) && Shareable(n)
    ensures Agrees(n, w)
    decreases n
  {
    if n.children == [] {
      assert CaseShareable(n, Index(w, n.discriminator));
      SharedCase(n, w);
    } else {
      forall k | 0 <= k < |n.children|
        ensures AllEncodings(n.children[k].encs) && Agrees(n.children[k], w)
      {
        ChildValid(n, k);
        ShareableAgrees(n.children[k], w);
      }
    }
  }

  /** The word agrees with the group on everything the path has dealt with. */
  ghost predicate OnPath(n: Node, w: Word) {
    forall e | e in n.encs :: w * n.ignore == e.value * n.ignore
  }

  /** Below the constant test and the dispatch, the word agrees on the child's path. */
  lemma {:induction false} ChildOnPath(n: Node, c: Node, w: Word)
    requires WellFormed(n) && IsChild(n, c) && OnPath(n, w)
    requires w * n.constant == n.encs[0].value * n.constant
    requires ChildIndex(n, c) == Index(w, n.discriminator)
    ensures OnPath(c, w)
  {
    SummaryFacts(n);
    forall e | e in c.encs
      ensures w * c.ignore == e.value * c.ignore
    {
      ChildMember(n, c, e);
      IndexInjective(e.value, w, n.discriminator);
      JoinAgreement(w, e.value, n.ignore, n.constant, n.discriminator);
    }
  }

  lemma {:induction false} JoinAgreement(v: Word, w: Word, a: Word, b: Word, c: Word)
    requires v * a == w * a && v * b == w * b && v * c == w * c
    ensures v * (a + b + c) == w * (a + b + c)
  {
    forall p: nat
      ensures p in v * (a + b + c) <==> p in w * (a + b + c)
    {
      assert p in v * a <==> p in w * a;
      assert p in v * b <==> p in w * b;
      assert p in v * c <==> p in w * c;
    }
  }

  /** A word whose constant bits differ matches nothing. */
  lemma {:induction false} ConstantTest(n: Node, w: Word)
    requires WellFormed(n) && AllEncodings(n.encs) && w * n.constant != n.encs[0].value * n.constant
    ensures AllEncodings(TreeOrder(n)) && LinearScan(TreeOrder(n), w) == NoMatch
  {
    SummaryFacts(n);
    TreeValid(n);
    forall e | e in TreeOrder(n)
      ensures !e.Matches(w)
    {
      TreeMember(n, e);
      if e.Matches(w) { MatchBits(e, w, n.constant); }
    }
    ScanSound(TreeOrder(n), w);
  }

  /** Subgroups with another discriminator value contribute nothing to the scan. */
  lemma {:induction false} ScanOthers(n: Node, ns: seq<Node>, w: Word)
    requires WellFormed(n) && AllEncodings(n.encs) && n.children != []
    requires forall k | 0 <= k < |ns| :: IsChild(n, ns[k]) && WellFormed(ns[k]) && ChildIndex(n, ns[k]) != Index(w, n.discriminator)
    ensures AllEncodings(TreeOrders(ns)) && LinearScan(TreeOrders(ns), w) == NoMatch
  {
    SummaryFacts(n);
    forall e | e in TreeOrders(ns)
      ensures e.Valid() && !e.Matches(w)
    {
      OrdersMember(ns, e);
      var k :| 0 <= k < |ns| && e in TreeOrder(ns[k]);
      TreeMember(ns[k], e);
      ChildMember(n, ns[k], e);
      if e.Matches(w) {
        MatchBits(e, w, n.discriminator);
        IndexInjective(e.value, w, n.discriminator);
      }
    }
    ScanSound(TreeOrders(ns), w);
  }

  lemma {:induction false} OrdersSplit(ns: seq<Node>, k: nat)
    requires k < |ns|
    ensures TreeOrders(ns) == TreeOrders(ns[..k]) + TreeOrder(ns[k]) + TreeOrders(ns[k + 1..])
  {
    if k == 0 {
      assert ns[..0] == [];
    } else {
      OrdersSplit(ns[1..], k - 1);
      assert ns[1..][..k - 1] == ns[..k][1..] && ns[1..][k - 1] == ns[k] && ns[1..][k..] == ns[k + 1..];
    }
  }

  /** Dispatching on the discriminator value leaves the scan of one subgroup. */
  lemma {:induction false} ScanChild(n: Node, k: nat, w: Word)
    requires WellFormed(n) && AllEncodings(n.encs) && k < |n.children| && ChildIndex(n, n.children[k]) == Index(w, n.discriminator)
    ensures AllEncodings(TreeOrder(n)) && AllEncodings(TreeOrder(n.children[k]))
    ensures LinearScan(TreeOrder(n), w) == LinearScan(TreeOrder(n.children[k]), w)
  {
    TreeValid(n);
    ChildValid(n, k);
    TreeValid(n.children[k]);
    OrdersSplit(n.children, k);
    ScanSiblings(n, k, w);
    ScanMiddle(TreeOrders(n.children[..k]), TreeOrder(n.children[k]), TreeOrders(n.children[k + 1..]), w);
  }

  lemma {:induction false} ScanMiddle(a: seq<Encoding>, b: seq<Encoding>, c: seq<Encoding>, w: Word)
    requires AllEncodings(a) && AllEncodings(b) && AllEncodings(c)
    requires LinearScan(a, w) == NoMatch && LinearScan(c, w) == NoMatch
    ensures AllEncodings(a + b + c) && LinearScan(a + b + c, w) == LinearScan(b, w)
  {
    ScanAppend(a, b, w);
    ScanAppend(a + b, c, w);
  }

  lemma {:induction false} ScanSiblings(n: Node, k: nat, w: Word)
    requires WellFormed(n) && AllEncodings(n.encs) && k < |n.children| && ChildIndex(n, n.children[k]) == Index(w, n.discriminator)
    ensures var before, after := TreeOrders(n.children[..k]), TreeOrders(n.children[k + 1..]);
            && AllEncodings(before) && LinearScan(before, w) == NoMatch
            && AllEncodings(after) && LinearScan(after, w) == NoMatch
  {
    ScanOthers(n, n.children[..k], w);
    ScanOthers(n, n.children[k + 1..], w);
  }

  lemma {:induction false} ChainRight(n: Node, code: Code, w: Word)
    requires WellFormed(n) && AllEncodings(n.encs) && n.children == [] && n.discriminator == {} && IsCodeFor(code, n)
    requires CaseAgrees(n, w) && OnPath(n, w) && w * n.constant == n.encs[0].value * n.constant
    ensures Run(code, w) == LinearScan(n.encs, w)
  {
    assert n.ignore + n.discriminator == n.ignore;
    LeafRight(n.encs, n.ignore, w);
  }

  /** The case of the word's discriminator value scans all encodings of the leaf that can match. */
  lemma {:induction false} CaseRight(n: Node, w: Word)
    requires WellFormed(n) && AllEncodings(n.encs) && n.discriminator != {} && CaseAgrees(n, w) && OnPath(n, w)
    ensures var same := Filter(n.encs, n.discriminator, Index(w, n.discriminator));
            && AllEncodings(same)
            && RunArms(ArmsFor(same, {}, n.ignore + n.discriminator), map[], w) == LinearScan(n.encs, w)
  {
    CaseScan(n, w);
    CaseArms(n, w);
  }

  lemma {:induction false} CaseArms(n: Node, w: Word)
    requires n.discriminator != {} && CaseAgrees(n, w) && OnPath(n, w)
    ensures var same := Filter(n.encs, n.discriminator, Index(w, n.discriminator));
            && AllEncodings(same)
            && RunArms(ArmsFor(same, {}, n.ignore + n.discriminator), map[], w) == LinearScan(same, w)
  {
    var same, handled: Word := Filter(n.encs, n.discriminator, Index(w, n.discriminator)), n.ignore + n.discriminator;
    forall e | e in same ensures w * handled == e.value * handled { SameOnHandled(n, e, w); }
    LeafRight(same, handled, w);
  }

  lemma {:induction false} CaseScan(n: Node, w: Word)
    requires WellFormed(n) && AllEncodings(n.encs)
    ensures var same := Filter(n.encs, n.discriminator, Index(w, n.discriminator));
            AllEncodings(same) && LinearScan(same, w) == LinearScan(n.encs, w)
  {
    SummaryFacts(n);
    ScanFilter(n.encs, w, n.discriminator);
  }

  lemma {:induction false} SameOnHandled(n: Node, e: Encoding, w: Word)
    requires OnPath(n, w) && e in Filter(n.encs, n.discriminator, Index(w, n.discriminator))
    ensures e in n.encs
    ensures w * (n.ignore + n.discriminator) == e.value * (n.ignore + n.discriminator)
  {
    FilterMember(n.encs, n.discriminator, Index(w, n.discriminator), e);
    IndexInjective(e.value, w, n.discriminator);
    JoinAgreement(w, e.value, n.ignore, n.discriminator, {});
    assert n.ignore + n.discriminator + {} == n.ignore + n.discriminator;
  }

  lemma {:induction false} SwitchRight(n: Node, code: Code, w: Word)
    requires WellFormed(n) && AllEncodings(n.encs) && n.children == [] && n.discriminator != {} && IsCodeFor(code, n)
    requires CaseAgrees(n, w) && OnPath(n, w) && w * n.constant == n.encs[0].value * n.constant
    ensures Run(code, w) == LinearScan(n.encs, w)
  {
    var i := Index(w, n.discriminator);
    assert IndexBy(code.body.switchRecipe, w) == i;
    CaseRight(n, w);
    if i !in code.body.cases {
      assert Filter(n.encs, n.discriminator, i) == [];
    }
  }

  /** The table access is in bounds and calls what the slot of the word's discriminator value holds. */
  lemma {:induction false} Dispatch(n: Node, code: Code, w: Word)
    requires WellFormed(n) && AllEncodings(n.encs) && n.children != [] && IsCodeFor(code, n)
    requires w * n.constant == n.encs[0].value * n.constant
    ensures code.body.Table? && Index(w, n.discriminator) < |code.body.slots|
    ensures Run(code, w) == match code.body.slots[Index(w, n.discriminator)] case None => NoMatch case Some(next) => Run(next, w)
  {
    assert IndexBy(code.body.recipe, w) == Index(w, n.discriminator);
    IndexInBounds(w, n.discriminator);
  }

  lemma {:induction false} SlotOf(n: Node, code: Code, k: nat)
    requires WellFormed(n) && AllEncodings(n.encs) && k < |n.children| && IsCodeFor(code, n)
    ensures var i := ChildIndex(n, n.children[k]);
            && code.body.Table? && i < |code.body.slots| && code.body.slots[i].Some?
            && AllEncodings(n.children[k].encs) && IsCodeFor(code.body.slots[i].value, n.children[k])
  {
  }

  lemma {:induction false} ChildCode(n: Node, code: Code, k: nat, w: Word)
    requires WellFormed(n) && AllEncodings(n.encs) && k < |n.children| && IsCodeFor(code, n)
    requires Agrees(n, w) && OnPath(n, w) && w * n.constant == n.encs[0].value * n.constant
    requires ChildIndex(n, n.children[k]) == Index(w, n.discriminator)
    ensures var c, i := n.children[k], Index(w, n.discriminator);
            && code.body.Table? && i < |code.body.slots| && code.body.slots[i].Some?
            && AllEncodings(c.encs) && IsCodeFor(code.body.slots[i].value, c) && Agrees(c, w) && OnPath(c, w)
  {
    var c := n.children[k];
    SlotOf(n, code, k);
    ChildOnPath(n, c, w);
  }

  lemma {:induction false} RunChild(n: Node, code: Code, k: nat, w: Word)
    requires WellFormed(n) && AllEncodings(n.encs) && k < |n.children| && IsCodeFor(code, n)
    requires w * n.constant == n.encs[0].value * n.constant && ChildIndex(n, n.children[k]) == Index(w, n.discriminator)
    requires code.body.Table? && Index(w, n.discriminator) < |code.body.slots| && code.body.slots[Index(w, n.discriminator)].Some?
    requires AllEncodings(TreeOrder(n.children[k]))
    requires Run(code.body.slots[Index(w, n.discriminator)].value, w) == LinearScan(TreeOrder(n.children[k]), w)
    ensures AllEncodings(TreeOrder(n)) && Run(code, w) == LinearScan(TreeOrder(n), w)
  {
    Dispatch(n, code, w);
    ScanChild(n, k, w);
  }

  lemma {:induction false} RunNone(n: Node, code: Code, w: Word)
    requires WellFormed(n) && AllEncodings(n.encs) && n.children != [] && IsCodeFor(code, n)
    requires w * n.constant == n.encs[0].value * n.constant
    requires forall k | 0 <= k < |n.children| :: ChildIndex(n, n.children[k]) != Index(w, n.discriminator)
    ensures AllEncodings(TreeOrder(n)) && Run(code, w) == LinearScan(TreeOrder(n), w)
  {
    Dispatch(n, code, w);
    ScanOthers(n, n.children, w);
  }

  lemma {:induction false} RunLeaf(n: Node, code: Code, w: Word)
    requires WellFormed(n) && AllEncodings(n.encs) && n.children == [] && IsCodeFor(code, n)
    requires Agrees(n, w) && OnPath(n, w) && w * n.constant == n.encs[0].value * n.constant
    ensures Run(code, w) == LinearScan(TreeOrder(n), w)
  {
    if n.discriminator == {} {
      ChainRight(n, code, w);
    } else {
      SwitchRight(n, code, w);
    }
  }

  lemma {:induction false} RunFails(n: Node, code: Code, w: Word)
    requires WellFormed(n) && AllEncodings(n.encs) && IsCodeFor(code, n)
    requires w * n.constant != n.encs[0].value * n.constant
    ensures AllEncodings(TreeOrder(n)) && Run(code, w) == LinearScan(TreeOrder(n), w)
  {
    ConstantTest(n, w);
  }

  /** The emitted decoder is a linear scan over the encodings in tree order: same opcode, kNone on the
      same words, never an undeclared variable and never an index out of bounds. */
  lemma {:induction false} RunIsScan(n: Node, code: Code, w: Word)
    requires WellFormed(n) && AllEncodings(n.encs) && IsCodeFor(code, n)
    requires Agrees(n, w) && OnPath(n, w)
    ensures AllEncodings(TreeOrder(n)) && Run(code, w) == LinearScan(TreeOrder(n), w)
    decreases n, 1
  {
    if w * n.constant != n.encs[0].value * n.constant {
      RunFails(n, code, w);
    } else if n.children == [] {
      RunLeaf(n, code, w);
    } else {
      RunTable(n, code, w);
    }
  }

  lemma {:induction false} RunTable(n: Node, code: Code, w: Word)
    requires WellFormed(n) && AllEncodings(n.encs) && n.children != [] && IsCodeFor(code, n)
    requires Agrees(n, w) && OnPath(n, w) && w * n.constant == n.encs[0].value * n.constant
    ensures AllEncodings(TreeOrder(n)) && Run(code, w) == LinearScan(TreeOrder(n), w)
    decreases n, 0
  {
    if k :| 0 <= k < |n.children| && ChildIndex(n, n.children[k]) == Index(w, n.discriminator) {
      ChildCode(n, code, k, w);
      RunIsScan(n.children[k], code.body.slots[Index(w, n.discriminator)].value, w);
      RunChild(n, code, k, w);
    } else {
      RunNone(n, code, w);
    }
  }

  // ----- undoing a split -----

  /** At most one encoding matches. */
  ghost predicate Exclusive(encs: seq<Encoding>, w: Word)
    requires AllEncodings(encs)
  {
    forall e, f | e in encs && f in encs && e.Matches(w) && f.Matches(w) :: e == f
  }

  /** The outcome is right for the encodings. */
  ghost predicate Right(outcome: Outcome, encs: seq<Encoding>, w: Word)
    requires AllEncodings(encs)
  {
    match outcome
    case NoMatch => forall e | e in encs :: !e.Matches(w)
    case Found(e, special) => e in encs && e.Matches(w) && special == Chosen(e.specials, w)
    case Stuck => false
  }

  lemma {:induction false} RunIsRight(n: Node, code: Code, w: Word)
    requires WellFormed(n) && AllEncodings(n.encs) && IsCodeFor(code, n)
    requires Agrees(n, w) && OnPath(n, w)
    ensures Right(Run(code, w), n.encs, w)
  {
    RunIsScan(n, code, w);
    ScanSound(TreeOrder(n), w);
    forall e
      ensures e in TreeOrder(n) <==> e in n.encs
    {
      TreeMember(n, e);
    }
  }

  /** Undoing a split keeps the meaning: the decoder of the collapsed leaf and that of the deeper tree have no
      match on the same words, otherwise both find a matching encoding, and the same one if only one matches. */
  lemma {:induction false} CollapseKeepsDecoding(n: Node, deep: Code, flat: Code, w: Word)
    requires WellFormed(n) && WellFormed(n.(children := [])) && AllEncodings(n.encs)
    requires IsCodeFor(deep, n) && IsCodeFor(flat, n.(children := []))
    requires Agrees(n, w) && Agrees(n.(children := []), w) && OnPath(n, w)
    ensures Right(Run(deep, w), n.encs, w) && Right(Run(flat, w), n.encs, w)
    ensures Run(deep, w) == NoMatch <==> Run(flat, w) == NoMatch
    ensures Exclusive(n.encs, w) ==> Run(deep, w) == Run(flat, w)
  {
    RunIsRight(n, deep, w);
    RunIsRight(n.(children := []), flat, w);
  }
}
