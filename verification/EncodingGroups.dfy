/** Encoding groups: building the decision tree in place and emitting the decoder. */
module EncodingGroups {
  import opened Words
  import opened Folding
  import opened Status
  import opened Extract
  import opened Overlays
  import opened InstructionEncodings
  import opened DecisionTrees
  import opened DecoderCorrectness
  import opened Emission
  import opened Sorting

  // ----- summaries grow with the group -----

  lemma {:induction false} SummaryAppend(encs: seq<Encoding>, e: Encoding)
    requires encs != []
    ensures Common(encs + [e]) == Common(encs) * e.mask
    ensures var last := encs[|encs| - 1];
            Differ(encs + [e]) == Differ(encs) + (e.value - last.value) + (last.value - e.value)
  {
    var all, last := encs + [e], encs[|encs| - 1];
    assert all[0] == encs[0] && last in encs;
    assert forall f | f in all :: f in encs || f == e;
    assert forall f | f in encs :: f in all;
    assert e in all;
    forall p: nat
      ensures p in Differ(all) <==> p in Differ(encs) || p in e.value - last.value || p in last.value - e.value
    {
      if p in Differ(all) && p !in Differ(encs) {
        var f, g :| f in all && g in all && p in f.value && p !in g.value;
        assert forall x, y | x in encs && y in encs :: p in x.value ==> p in y.value;
      }
    }
  }

  lemma {:induction false} SummarySingle(e: Encoding)
    ensures Common([e]) == e.mask && Differ([e]) == {}
  {
  }

  /** One step of the running summary: masks are intersected outside the ignored bits, and the bits that
      changed since the last value are added to the varying ones. */
  lemma {:induction false} GrowSummary(encs: seq<Encoding>, e: Encoding, ignore: Word, mask: Word, varying: Word, last: Word)
    requires if encs == [] then mask == e.mask && varying == {} && last == e.value
             else mask == Common(encs) - ignore && varying == Differ(encs) && last == encs[|encs| - 1].value
    ensures mask * (e.mask - ignore) == Common(encs + [e]) - ignore
    ensures varying + ((e.value - last) + (last - e.value)) == Differ(encs + [e])
  {
    if encs == [] {
      SummarySingle(e);
      assert encs + [e] == [e];
    } else {
      SummaryAppend(encs, e);
    }
  }

  lemma {:induction false} SamePermutation(a: seq<Encoding>, b: seq<Encoding>)
    requires multiset(a) == multiset(b)
    ensures |a| == |b|
    ensures forall e :: e in a <==> e in b
    ensures Common(a) == Common(b) && Differ(a) == Differ(b)
  {
    assert |multiset(a)| == |multiset(b)|;
    forall e
      ensures e in a <==> e in b
    {
      assert e in a <==> e in multiset(a);
      assert e in b <==> e in multiset(b);
    }
    if a != [] {
      assert b != [] && a[0] in a && b[0] in b;
    }
  }

  /** A non-zero discriminator separates the encodings: no value is shared by all. */
  lemma {:induction false} DiscriminatorSplits(encs: seq<Encoding>, d: Word, i: nat)
    requires d != {} && d <= Differ(encs)
    ensures |Filter(encs, d, i)| < |encs|
  {
    var p :| p in d;
    var e, f :| e in encs && f in encs && p in e.value && p !in f.value;
    IndexInjective(e.value, f.value, d);
    assert p in e.value * d && p !in f.value * d;
    if Index(e.value, d) != i {
      FilterSmaller(encs, d, i, e);
    } else {
      FilterSmaller(encs, d, i, f);
    }
  }

  lemma {:induction false} WholeFilter(encs: seq<Encoding>)
    ensures Filter(encs, {}, 0) == encs
  {
    if encs != [] {
      WholeFilter(encs[1..]);
      assert Compress(encs[0].value, {}) == {};
      NumWiden({}, 0, 64);
      assert encs == [encs[0]] + encs[1..];
    }
  }

  lemma {:induction false} FilterSmaller(encs: seq<Encoding>, d: Word, i: nat, e: Encoding)
    ensures |Filter(encs, d, i)| <= |encs|
    ensures e in encs && Index(e.value, d) != i ==> |Filter(encs, d, i)| < |encs|
  {
    if encs != [] { FilterSmaller(encs[1..], d, i, e); }
  }

  lemma {:induction false} FilterAppend(encs: seq<Encoding>, e: Encoding, d: Word, i: nat)
    ensures Filter(encs + [e], d, i) == Filter(encs, d, i) + if Index(e.value, d) == i then [e] else []
  {
    if encs == [] {
      assert [e][1..] == [];
    } else {
      FilterAppend(encs[1..], e, d, i);
      assert (encs + [e])[1..] == encs[1..] + [e];
    }
  }

  // ----- facts used when splitting -----

  /** The subgroup for discriminator value i of a group satisfies the path invariant. */
  lemma {:induction false} ChildPath(n: Node, i: nat)
    requires Summarized(n) && PathInvariant(n.ignore, n.encs)
    ensures PathInvariant(n.ignore + n.constant + n.discriminator, Filter(n.encs, n.discriminator, i))
  {
    SummaryFacts(n);
    var d, same := n.discriminator, Filter(n.encs, n.discriminator, i);
    forall e | e in same
      ensures e in n.encs && n.ignore + n.constant + d <= e.mask
    {
      FilterMember(n.encs, d, i, e);
    }
    forall e, f | e in same && f in same
      ensures e.value * (n.ignore + n.constant + d) == f.value * (n.ignore + n.constant + d)
    {
      FilterMember(n.encs, d, i, e);
      FilterMember(n.encs, d, i, f);
      IndexInjective(e.value, f.value, d);
      JoinAgreement(e.value, f.value, n.ignore, n.constant, d);
    }
  }

  /** Encodings in another order have the same path invariant and discriminator values. */
  lemma {:induction false} PathPermutation(ignore: Word, a: seq<Encoding>, b: seq<Encoding>)
    requires multiset(a) == multiset(b) && PathInvariant(ignore, a)
    ensures PathInvariant(ignore, b)
  {
    SamePermutation(a, b);
  }

  /** The recipe extracts the discriminator, the table has a slot for each of its values, and the encodings are
      in the order of these values. */
  ghost predicate CanEmit(encs: seq<Encoding>, d: Word, recipe: seq<Step>, size: nat, simple: bool) {
    && Extracts(recipe, d)
    && (d == {} ==> recipe == [])
    && (d != {} ==> size == Pow2(Popcount(d)))
    && (simple ==> forall e | e in encs :: e.specialized)
    && SortedBy(encs, d)
  }

  /** The same, folded. */
  ghost predicate EmitReady(encs: seq<Encoding>, d: Word, recipe: seq<Step>, size: nat, simple: bool) {
    forall t: Token {:trigger Unfold(t)} :: t == Emits && Unfold(t) ==> CanEmit(encs, d, recipe, size, simple)
  }

  ghost predicate CanSplit(n: Node) {
    Summarized(n) && PathInvariant(n.ignore, n.encs)
  }

  /** A finished subgroup of n. The definition stays folded until Unfold(Child) is asserted. */
  ghost predicate GoodChild(n: Node, c: Node) {
    forall t: Token {:trigger Unfold(t)} :: t == Child && Unfold(t) ==> c.encs != [] && IsChild(n, c) && WellFormed(c) && Settled(c)
  }

  /** Subgroups for all discriminator values below i: one for each value that occurs. */
  ghost predicate SubgroupsBelow(n: Node, trees: seq<Node>, i: nat)
    decreases i
  {
    if i == 0 then trees == []
    else if Filter(n.encs, n.discriminator, i - 1) == [] then SubgroupsBelow(n, trees, i - 1)
    else
      && trees != []
      && GoodChild(n, trees[|trees| - 1]) && trees[|trees| - 1].encs != [] && ChildIndex(n, trees[|trees| - 1]) == i - 1
      && SubgroupsBelow(n, trees[..|trees| - 1], i - 1)
  }

  /** Subgroups for all discriminator values below i have been split off; folded like GoodChild. */
  ghost predicate PartlySplit(n: Node, trees: seq<Node>, i: nat) {
    forall t: Token {:trigger Unfold(t)} :: t == Parts && Unfold(t) ==> SubgroupsBelow(n, trees, i)
  }

  /** The subgroups are good, in increasing order, and cover all values below i that occur. */
  ghost predicate Covered(n: Node, trees: seq<Node>, i: nat) {
    forall t: Token {:trigger Unfold(t)} :: t == Cover && Unfold(t) ==> Covering(n, trees, i)
  }

  ghost predicate Covering(n: Node, trees: seq<Node>, i: nat) {
    && (forall k | 0 <= k < |trees| :: GoodChild(n, trees[k]) && trees[k].encs != [] && ChildIndex(n, trees[k]) < i)
    && (forall j, k | 0 <= j < k < |trees| :: ChildIndex(n, trees[j]) < ChildIndex(n, trees[k]))
    && (forall e | e in n.encs && Index(e.value, n.discriminator) < i :: HasSlot(n, trees, Index(e.value, n.discriminator)))
  }

  ghost predicate HasSlot(n: Node, trees: seq<Node>, i: nat) {
    exists k :: 0 <= k < |trees| && trees[k].encs != [] && ChildIndex(n, trees[k]) == i
  }

  lemma {:induction false} NewChild(n: Node, i: nat, c: Node)
    requires c.encs != [] && c.ignore == n.ignore + n.constant + n.discriminator
    requires multiset(c.encs) == multiset(Filter(n.encs, n.discriminator, i))
    ensures ChildIndex(n, c) == i && IsChild(n, c)
  {
    SamePermutation(c.encs, Filter(n.encs, n.discriminator, i));
    assert c.encs[0] in c.encs;
    FilterMember(n.encs, n.discriminator, i, c.encs[0]);
  }

  lemma {:induction false} CoverStep(n: Node, trees: seq<Node>, i: nat, c: Node)
    requires Covering(n, trees, i) && GoodChild(n, c) && c.encs != [] && ChildIndex(n, c) == i
    ensures Covering(n, trees + [c], i + 1)
  {
    var all := trees + [c];
    forall k | 0 <= k < |all|
      ensures GoodChild(n, all[k]) && all[k].encs != [] && ChildIndex(n, all[k]) < i + 1
    {
      if k < |trees| { assert all[k] == trees[k]; } else { assert all[k] == c; }
    }
    forall j, k | 0 <= j < k < |all|
      ensures ChildIndex(n, all[j]) < ChildIndex(n, all[k])
    {
      assert all[j] == trees[j];
      if k < |trees| { assert all[k] == trees[k]; } else { assert all[k] == c; }
    }
    forall e | e in n.encs && Index(e.value, n.discriminator) < i + 1
      ensures HasSlot(n, all, Index(e.value, n.discriminator))
    {
      if Index(e.value, n.discriminator) < i {
        assert HasSlot(n, trees, Index(e.value, n.discriminator));
        var k :| 0 <= k < |trees| && trees[k].encs != [] && ChildIndex(n, trees[k]) == Index(e.value, n.discriminator);
        assert all[k] == trees[k];
      } else {
        assert all[|trees|] == c;
      }
    }
  }

  lemma {:induction false} NewSubtree(n: Node, trees: seq<Node>, i: nat, c: Node)
    requires PartlySplit(n, trees, i) && WellFormed(c) && Settled(c)
    requires c.encs != [] && c.ignore == n.ignore + n.constant + n.discriminator
    requires multiset(c.encs) == multiset(Filter(n.encs, n.discriminator, i))
    ensures PartlySplit(n, trees + [c], i + 1)
  {
    NewChild(n, i, c);
    SamePermutation(c.encs, Filter(n.encs, n.discriminator, i));
    assert GoodChild(n, c);
    NewPart(n, trees, i, c);
  }

  lemma {:induction false} NewPart(n: Node, trees: seq<Node>, i: nat, c: Node)
    requires PartlySplit(n, trees, i) && Filter(n.encs, n.discriminator, i) != []
    requires GoodChild(n, c) && c.encs != [] && ChildIndex(n, c) == i
    ensures PartlySplit(n, trees + [c], i + 1)
  {
    assert Unfold(Parts) && (trees + [c])[..|trees|] == trees;
  }

  lemma {:induction false} ReadyToSettle(n: Node, i: nat)
    requires CanSplit(n)
    ensures PathInvariant(n.ignore + n.constant + n.discriminator, Filter(n.encs, n.discriminator, i))
    ensures n.mask <= n.ignore + n.constant + n.discriminator
  {
    ChildPath(n, i);
    SummaryFacts(n);
  }

  lemma {:induction false} CoverSkip(n: Node, trees: seq<Node>, i: nat)
    requires Covering(n, trees, i) && Filter(n.encs, n.discriminator, i) == []
    ensures Covering(n, trees, i + 1)
  {
    forall e | e in n.encs
      ensures Index(e.value, n.discriminator) != i
    {
      FilterMember(n.encs, n.discriminator, i, e);
    }
  }

  lemma {:induction false} FrontAndLast<T>(s: seq<T>)
    requires s != []
    ensures s[..|s| - 1] + [s[|s| - 1]] == s
  {
  }

  lemma {:induction false} SkipValue(n: Node, trees: seq<Node>, i: nat)
    requires PartlySplit(n, trees, i) && Filter(n.encs, n.discriminator, i) == []
    ensures PartlySplit(n, trees, i + 1)
  {
    assert Unfold(Parts);
  }

  lemma {:induction false} CoverLast(n: Node, trees: seq<Node>, i: nat)
    requires trees != [] && Covered(n, trees[..|trees| - 1], i)
    requires GoodChild(n, trees[|trees| - 1]) && trees[|trees| - 1].encs != [] && ChildIndex(n, trees[|trees| - 1]) == i
    ensures Covered(n, trees, i + 1)
  {
    assert Unfold(Cover);
    FrontAndLast(trees);
    CoverStep(n, trees[..|trees| - 1], i, trees[|trees| - 1]);
  }

  lemma {:induction false} CoverNone(n: Node, trees: seq<Node>)
    requires PartlySplit(n, trees, 0)
    ensures Covered(n, trees, 0)
  {
    assert Unfold(Parts);
  }

  lemma {:induction false} CoverSame(n: Node, trees: seq<Node>, i: nat)
    requires Covered(n, trees, i) && Filter(n.encs, n.discriminator, i) == []
    ensures Covered(n, trees, i + 1)
  {
    assert Unfold(Cover);
    CoverSkip(n, trees, i);
  }

  lemma {:induction false} SamePart(n: Node, trees: seq<Node>, i: nat)
    requires PartlySplit(n, trees, i + 1) && Filter(n.encs, n.discriminator, i) == []
    ensures PartlySplit(n, trees, i)
  {
    assert Unfold(Parts);
  }

  lemma {:induction false} LastPart(n: Node, trees: seq<Node>, i: nat)
    requires PartlySplit(n, trees, i + 1) && Filter(n.encs, n.discriminator, i) != []
    ensures trees != [] && GoodChild(n, trees[|trees| - 1])
    ensures trees[|trees| - 1].encs != [] && ChildIndex(n, trees[|trees| - 1]) == i
    ensures PartlySplit(n, trees[..|trees| - 1], i)
  {
    assert Unfold(Parts);
  }

  lemma {:induction false} CoverPart(n: Node, trees: seq<Node>, i: nat) returns (rest: seq<Node>)
    requires PartlySplit(n, trees, i + 1)
    ensures PartlySplit(n, rest, i)
    ensures Covered(n, rest, i) ==> Covered(n, trees, i + 1)
  {
    if Filter(n.encs, n.discriminator, i) == [] {
      rest := trees;
      SamePart(n, trees, i);
      if Covered(n, rest, i) { CoverSame(n, trees, i); }
    } else {
      LastPart(n, trees, i);
      rest := trees[..|trees| - 1];
      if Covered(n, rest, i) { CoverLast(n, trees, i); }
    }
  }

  lemma {:induction false} SplitCovers(n: Node, trees: seq<Node>, i: nat)
    requires PartlySplit(n, trees, i)
    ensures Covered(n, trees, i)
    decreases i
  {
    if i == 0 {
      CoverNone(n, trees);
    } else {
      var rest := CoverPart(n, trees, i - 1);
      SplitCovers(n, rest, i - 1);
    }
  }

  /** Without a discriminator there are no subgroups, otherwise those for all table slots. */
  ghost predicate FullySplit(n: Node, trees: seq<Node>) {
    if n.discriminator == {} then trees == [] else PartlySplit(n, trees, Pow2(Popcount(n.discriminator)))
  }

  /** Only a group without discriminator keeps all encodings together, and then in its first subgroup. */
  lemma {:induction false} WholeIff(n: Node, trees: seq<Node>, i: nat)
    requires CanSplit(n) && PartlySplit(n, trees, i) && (i == 0 || n.discriminator != {})
    ensures |Filter(n.encs, n.discriminator, i)| <= |n.encs|
    ensures |Filter(n.encs, n.discriminator, i)| == |n.encs| <==> n.discriminator == {}
    ensures n.discriminator == {} ==> FullySplit(n, trees)
    ensures n.discriminator == {} ==> Filter(n.encs, n.discriminator, i) != []
  {
    SummaryFacts(n);
    if n.discriminator == {} {
      WholeFilter(n.encs);
      assert Unfold(Parts);
    } else {
      DiscriminatorSplits(n.encs, n.discriminator, i);
    }
  }

  /** When all table slots have been dealt with, the subgroups partition the group. */
  lemma {:induction false} SplitDone(n: Node, trees: seq<Node>)
    requires CanSplit(n) && FullySplit(n, trees)
    ensures WellFormed(n.(children := trees)) && Split(n.(children := trees))
  {
    var done := n.(children := trees);
    assert Summarized(done);
    if n.discriminator == {} {
      return;
    }
    assert Unfold(Cover);
    SplitCovers(n, trees, Pow2(Popcount(n.discriminator)));
    forall k | 0 <= k < |trees|
      ensures trees[k].encs != [] && IsChild(done, trees[k]) && ChildIndex(done, trees[k]) == ChildIndex(n, trees[k])
      ensures WellFormed(trees[k]) && Settled(trees[k])
    {
      assert GoodChild(n, trees[k]) && Unfold(Child);
    }
    forall e | e in n.encs
      ensures exists k :: 0 <= k < |trees| && ChildIndex(done, trees[k]) == Index(e.value, n.discriminator)
    {
      IndexInBounds(e.value, n.discriminator);
      assert HasSlot(n, trees, Index(e.value, n.discriminator));
      var k :| 0 <= k < |trees| && trees[k].encs != [] && ChildIndex(n, trees[k]) == Index(e.value, n.discriminator);
      assert ChildIndex(done, trees[k]) == Index(e.value, n.discriminator);
    }
    assert n.encs[0] in n.encs;
  }

  /** The tree of a group that has been split, as a top-level group is; folded. */
  ghost predicate SplitTree(n: Node) {
    forall t: Token {:trigger Unfold(t)} :: t == Whole && Unfold(t) ==> WellFormed(n) && Split(n)
  }

  lemma {:induction false} OpenTree(n: Node)
    requires SplitTree(n)
    ensures WellFormed(n) && Split(n) && n.encs != []
  {
    assert Unfold(Whole);
  }

  lemma {:induction false} SplitDoneFolded(n: Node, trees: seq<Node>)
    requires CanSplit(n) && FullySplit(n, trees)
    ensures SplitTree(n.(children := trees))
  {
    SplitDone(n, trees);
  }

  lemma {:induction false} FilterAll(encs: seq<Encoding>, d: Word, i: nat)
    requires forall e | e in encs :: Index(e.value, d) == i
    ensures Filter(encs, d, i) == encs
  {
    if encs != [] {
      FilterAll(encs[1..], d, i);
      assert encs == [encs[0]] + encs[1..];
    }
  }

  /** A subgroup is neither empty nor as large as its parent. */
  lemma {:induction false} ChildSmaller(n: Node, k: nat)
    requires WellFormed(n) && k < |n.children|
    ensures 0 < |n.children[k].encs| < |n.encs|
  {
    var c := n.children[k];
    SummaryFacts(n);
    SamePermutation(c.encs, Filter(n.encs, n.discriminator, ChildIndex(n, c)));
    DiscriminatorSplits(n.encs, n.discriminator, ChildIndex(n, c));
  }

  /** A split makes at least two subgroups, each smaller than the group and none of them empty, and the
      leaves below hold every encoding as often as the group does. */
  lemma {:induction false} SplitsProperly(n: Node)
    requires WellFormed(n) && n.children != []
    ensures |n.children| >= 2
    ensures forall k | 0 <= k < |n.children| :: 0 < |n.children[k].encs| < |n.encs|
    ensures multiset(TreeOrder(n)) == multiset(n.encs)
  {
    TreePermutation(n);
    forall k | 0 <= k < |n.children| ensures 0 < |n.children[k].encs| < |n.encs| { ChildSmaller(n, k); }
    if |n.children| == 1 {
      var c := n.children[0];
      SamePermutation(c.encs, Filter(n.encs, n.discriminator, ChildIndex(n, c)));
      FilterAll(n.encs, n.discriminator, ChildIndex(n, c));
    }
  }

  /** Splitting pays off exactly when a subgroup still varies in two or more bits. */
  lemma {:induction false} PoorSplit(n: Node)
    requires WellFormed(n) && Split(n)
    ensures (forall k | 0 <= k < |n.children| :: Popcount(n.children[k].varying) < 2) <==> !WorthSplitting(n)
  {
    forall k | 0 <= k < |n.children|
      ensures n.children[k].encs != []
      ensures n.children[k].varying == Differ(Filter(n.encs, n.discriminator, ChildIndex(n, n.children[k])))
      ensures Popcount(n.children[k].varying) >= 2 ==> WorthSplitting(n)
    {
      ChildVarying(n, n.children[k]);
    }
    if WorthSplitting(n) {
      var e :| e in n.encs && Popcount(Differ(Filter(n.encs, n.discriminator, Index(e.value, n.discriminator)))) >= 2;
      var k :| 0 <= k < |n.children| && ChildIndex(n, n.children[k]) == Index(e.value, n.discriminator);
      assert Popcount(n.children[k].varying) >= 2;
    }
  }

  /** Two of the encodings differ in bit p, and it is insignificant to one of them or has been dealt with. */
  ghost predicate DifferOutside(encs: seq<Encoding>, ignore: Word, p: nat) {
    && (exists e, f :: e in encs && f in encs && p in e.value && p !in f.value)
    && (p in ignore || exists g :: g in encs && p !in g.mask)
  }

  lemma {:induction false} OutsideIff(encs: seq<Encoding>, ignore: Word)
    requires encs != []
    ensures Differ(encs) <= Common(encs) - ignore <==> !exists p: nat :: DifferOutside(encs, ignore, p)
  {
    if p :| p in Differ(encs) && p !in Common(encs) - ignore { assert DifferOutside(encs, ignore, p); }
    if p: nat :| DifferOutside(encs, ignore, p) { assert p in Differ(encs) && p !in Common(encs) - ignore; }
  }

  /** A subgroup is split exactly when splitting pays off, and its encodings differ in such a bit. */
  lemma {:induction false} SplitIff(n: Node)
    requires Summarized(n) && Settled(n)
    ensures n.children != [] <==> WorthSplitting(n) && exists p: nat :: DifferOutside(n.encs, n.ignore, p)
  {
    OutsideIff(n.encs, n.ignore);
  }

  lemma {:induction false} ChildVarying(n: Node, c: Node)
    requires IsChild(n, c) && Summarized(c)
    ensures c.varying == Differ(Filter(n.encs, n.discriminator, ChildIndex(n, c)))
    ensures c.encs[0] in n.encs && Index(c.encs[0].value, n.discriminator) == ChildIndex(n, c)
  {
    SamePermutation(c.encs, Filter(n.encs, n.discriminator, ChildIndex(n, c)));
    assert c.encs[0] in c.encs;
    ChildMember(n, c, c.encs[0]);
  }

  /** The tree with a split undone that did not pay off. */
  ghost function Undone(n: Node): Node {
    if WorthSplitting(n) then n else n.(children := [])
  }

  /** Undoing a split keeps the tree well formed. */
  lemma {:induction false} Collapse(n: Node)
    requires WellFormed(n)
    ensures WellFormed(n.(children := []))
  {
    assert Summarized(n.(children := []));
  }

  lemma {:induction false} UndoneIsSettled(n: Node)
    requires WellFormed(n) && Split(n) && !(n.varying <= n.mask)
    ensures WellFormed(Undone(n)) && Settled(Undone(n))
  {
    Collapse(n);
    assert WorthSplitting(n.(children := [])) <==> WorthSplitting(n);
  }

  ghost predicate SwitchRightFor(body: Body, encs: seq<Encoding>, d: Word, handled: Word)
    requires AllEncodings(encs)
  {
    && body.Switch?
    && Extracts(body.switchRecipe, d)
    && CasesRight(body.cases, encs, d, handled)
  }

  ghost predicate IsLeafBody(body: Body, encs: seq<Encoding>, d: Word, handled: Word)
    requires AllEncodings(encs)
  {
    if d == {} then body == IfChain(ArmsFor(encs, {}, handled)) else SwitchRightFor(body, encs, d, handled)
  }

  lemma {:induction false} LeafIsCode(n: Node, code: Code)
    requires WellFormed(n) && AllEncodings(n.encs) && n.children == []
    requires code.constant == n.constant && code.constValue == n.encs[0].value * n.constant
    requires IsLeafBody(code.body, n.encs, n.discriminator, n.ignore + n.discriminator)
    ensures IsCodeFor(code, n)
  {
  }

  ghost predicate CasesRight(cases: map<nat, seq<Arm>>, encs: seq<Encoding>, d: Word, handled: Word)
    requires AllEncodings(encs)
  {
    && (forall i :: i in cases <==> Filter(encs, d, i) != [])
    && (forall i | i in cases ::
          && AllEncodings(Filter(encs, d, i))
          && cases[i] == ArmsFor(Filter(encs, d, i), {}, handled))
  }

  /** The map holds the encodings by discriminator value, in their order. */
  ghost predicate Grouped(byIndex: map<nat, seq<Encoding>>, encs: seq<Encoding>, d: Word) {
    && (forall i :: i in byIndex <==> Filter(encs, d, i) != [])
    && (forall i | i in byIndex :: byIndex[i] == Filter(encs, d, i))
  }

  lemma {:induction false} GroupedMore(byIndex: map<nat, seq<Encoding>>, encs: seq<Encoding>, e: Encoding, d: Word)
    requires Grouped(byIndex, encs, d)
    ensures var index := Index(e.value, d);
            Grouped(byIndex[index := (if index in byIndex then byIndex[index] else []) + [e]], encs + [e], d)
  {
    forall i: nat
      ensures Filter(encs + [e], d, i) == Filter(encs, d, i) + if Index(e.value, d) == i then [e] else []
    {
      FilterAppend(encs, e, d, i);
    }
  }

  method GroupByIndex(encs: seq<Encoding>, ghost d: Word, recipe: seq<Step>) returns (byIndex: map<nat, seq<Encoding>>)
    requires Extracts(recipe, d)
    ensures Grouped(byIndex, encs, d)
  {
    byIndex := map[];
    for j := 0 to |encs|
      invariant Grouped(byIndex, encs[..j], d)
    {
      var enc := encs[j];
      var extracted := ExtractValue(enc.value, recipe);
      var index := Num(extracted, 64);
      GroupedMore(byIndex, encs[..j], enc, d);
      assert encs[..j + 1] == encs[..j] + [enc];
      byIndex := byIndex[index := (if index in byIndex then byIndex[index] else []) + [enc]];
    }
    assert encs[..|encs|] == encs;
  }

  /** The case of each discriminator value tests its encodings in order. */
  method EmitCases(byIndex: map<nat, seq<Encoding>>, ghost encs: seq<Encoding>, ghost d: Word, handled: Word)
    returns (cases: map<nat, seq<Arm>>)
    requires AllEncodings(encs) && Grouped(byIndex, encs, d)
    ensures CasesRight(cases, encs, d, handled)
  {
    forall i
      ensures AllEncodings(Filter(encs, d, i))
    {
      forall e | e in Filter(encs, d, i) ensures e.Valid() { FilterMember(encs, d, i, e); }
    }
    cases := map[];
    var todo := byIndex.Keys;
    while todo != {}
      invariant todo <= byIndex.Keys && cases.Keys == byIndex.Keys - todo
      invariant forall i | i in cases :: cases[i] == ArmsFor(Filter(encs, d, i), {}, handled)
      decreases todo
    {
      var i :| i in todo;
      var arms := EmitIfSequence(byIndex[i], handled);
      cases := cases[i := arms];
      todo := todo - {i};
    }
  }

  /** Replaces the names in a table by the decoders they name. */
  method Link(slots: seq<Option<nat>>, decoders: seq<Code>) returns (table: seq<Option<Code>>)
    requires forall i | 0 <= i < |slots| :: slots[i].Some? ==> slots[i].value < |decoders|
    ensures |table| == |slots|
    ensures forall i | 0 <= i < |slots| :: table[i] == if slots[i].Some? then Some(decoders[slots[i].value]) else None
  {
    table := [];
    for i := 0 to |slots|
      invariant |table| == i
      invariant forall j | 0 <= j < i :: table[j] == if slots[j].Some? then Some(decoders[slots[j].value]) else None
    {
      table := table + [if slots[i].Some? then Some(decoders[slots[i].value]) else None];
    }
  }

  lemma {:induction false} TableIsCode(n: Node, code: Code, slots: seq<Option<nat>>, decoders: seq<Code>)
    requires WellFormed(n) && AllEncodings(n.encs) && n.children != [] && SlotsRight(n, slots)
    requires |slots| == Pow2(Popcount(n.discriminator))
    requires CodesFor(decoders, n.children, |n.children|)
    requires code.constant == n.constant && code.constValue == n.encs[0].value * n.constant
    requires code.body.Table? && Extracts(code.body.recipe, n.discriminator) && |code.body.slots| == |slots|
    requires forall i | 0 <= i < |slots| :: code.body.slots[i] == if slots[i].Some? then Some(decoders[slots[i].value]) else None
    ensures IsCodeFor(code, n)
  {
    forall k | 0 <= k < |n.children|
      ensures var i := ChildIndex(n, n.children[k]);
              && i < |code.body.slots| && code.body.slots[i].Some? && AllEncodings(n.children[k].encs)
              && IsCodeFor(code.body.slots[i].value, n.children[k])
    {
      TableSlot(n, slots, decoders, code.body.slots, k);
    }
  }

  lemma {:induction false} TableSlot(n: Node, slots: seq<Option<nat>>, decoders: seq<Code>, table: seq<Option<Code>>, k: nat)
    requires WellFormed(n) && n.children != [] && SlotsRight(n, slots) && k < |n.children|
    requires CodesFor(decoders, n.children, |n.children|) && |table| == |slots|
    requires forall i | 0 <= i < |slots| :: table[i] == if slots[i].Some? then Some(decoders[slots[i].value]) else None
    ensures var c := n.children[k];
            && ChildIndex(n, c) < |table| && table[ChildIndex(n, c)].Some? && AllEncodings(c.encs)
            && IsCodeFor(table[ChildIndex(n, c)].value, c)
  {
    assert slots[ChildIndex(n, n.children[k])] == Some(k);
    OpenCode(decoders[k], n.children[k]);
  }

  /** The body of the decoder of n, behind the constant test. */
  ghost predicate IsBodyFor(body: Body, n: Node)
    requires WellFormed(n) && AllEncodings(n.encs)
  {
    IsCodeFor(Code(n.constant, n.encs[0].value * n.constant, body), n)
  }

  lemma {:induction false} BodyIsCode(n: Node, body: Body, code: Code)
    requires WellFormed(n) && AllEncodings(n.encs) && IsBodyFor(body, n)
    requires code == Code(n.constant, n.encs[0].value * n.constant, body)
    ensures CodeFor(code, n)
  {
  }

  method LinkTable(ghost n: Node, slots: seq<Option<nat>>, decoders: seq<Code>, recipe: seq<Step>) returns (body: Body)
    requires WellFormed(n) && AllEncodings(n.encs) && n.children != [] && SlotsRight(n, slots)
    requires |slots| == Pow2(Popcount(n.discriminator)) && Extracts(recipe, n.discriminator)
    requires CodesFor(decoders, n.children, |n.children|)
    ensures IsBodyFor(body, n)
  {
    var table := Link(slots, decoders);
    body := Table(recipe, table);
    TableIsCode(n, Code(n.constant, n.encs[0].value * n.constant, body), slots, decoders);
  }

  /** The encodings are valid and none has specializations, as is the case while decision trees are built. */
  ghost predicate Plain(encs: seq<Encoding>) {
    AllEncodings(encs) && forall e | e in encs :: !e.specialized
  }

  /** The code emitted for a well-formed tree; folded. */
  ghost predicate CodeFor(code: Code, n: Node) {
    forall t: Token {:trigger Unfold(t)} :: t == Compiled && Unfold(t) ==> WellFormed(n) && AllEncodings(n.encs) && IsCodeFor(code, n)
  }

  lemma {:induction false} OpenCode(code: Code, n: Node)
    requires CodeFor(code, n)
    ensures WellFormed(n) && AllEncodings(n.encs) && IsCodeFor(code, n)
  {
    assert Unfold(Compiled);
  }

  ghost predicate CodesFor(codes: seq<Code>, trees: seq<Node>, n: nat) {
    |codes| == n <= |trees| && forall k | 0 <= k < n :: CodeFor(codes[k], trees[k])
  }

  lemma {:induction false} OneMoreCode(codes: seq<Code>, trees: seq<Node>, n: nat, code: Code)
    requires CodesFor(codes, trees, n) && n < |trees| && CodeFor(code, trees[n])
    ensures CodesFor(codes + [code], trees, n + 1)
  {
    var all := codes + [code];
    assert forall k | 0 <= k < n :: all[k] == codes[k] && CodeFor(all[k], trees[k]);
    assert all[n] == code && CodeFor(all[n], trees[n]);
  }

  lemma {:induction false} ChildReady(n: Node, k: nat)
    requires WellFormed(n) && k < |n.children| && Plain(n.encs)
    ensures WellFormed(n.children[k]) && Plain(n.children[k].encs)
  {
    forall e | e in n.children[k].encs
      ensures !e.specialized && e.Valid()
    {
      ChildMember(n, n.children[k], e);
    }
  }

  /** The discriminator values of the subgroups of n. */
  ghost predicate IndicesOf(n: Node, indices: seq<nat>) {
    |indices| == |n.children| && forall k | 0 <= k < |indices| :: n.children[k].encs != [] && indices[k] == ChildIndex(n, n.children[k])
  }

  /** Increasing table positions. */
  predicate Positions(indices: seq<nat>, size: nat) {
    && (forall j, k | 0 <= j < k < |indices| :: indices[j] < indices[k])
    && (forall k | 0 <= k < |indices| :: indices[k] < size)
  }

  /** Slot i holds the place of i in the list of positions, or none. */
  predicate Merged(indices: seq<nat>, slots: seq<Option<nat>>) {
    && (forall i | 0 <= i < |slots| :: slots[i].Some? ==> slots[i].value < |indices| && indices[slots[i].value] == i)
    && (forall k | 0 <= k < |indices| :: indices[k] < |slots| && slots[indices[k]] == Some(k))
  }

  lemma {:induction false} IndicesInBounds(n: Node, indices: seq<nat>)
    requires WellFormed(n) && n.children != [] && IndicesOf(n, indices)
    ensures n.discriminator != {} && Positions(indices, Pow2(Popcount(n.discriminator)))
  {
    forall k | 0 <= k < |indices|
      ensures indices[k] < Pow2(Popcount(n.discriminator))
    {
      IndexInBounds(n.children[k].encs[0].value, n.discriminator);
    }
    forall j, k | 0 <= j < k < |indices|
      ensures indices[j] < indices[k]
    {
      assert ChildIndex(n, n.children[j]) < ChildIndex(n, n.children[k]);
    }
  }

  /** Merges increasing positions into a table. */
  method MergeSlots(indices: seq<nat>, size: nat) returns (slots: seq<Option<nat>>)
    requires Positions(indices, size)
    ensures |slots| == size && Merged(indices, slots)
  {
    slots := [];
    var next := 0;
    for i := 0 to size
      invariant |slots| == i && next <= |indices|
      invariant forall k | 0 <= k < |indices| :: indices[k] < i <==> k < next
      invariant forall j | 0 <= j < i :: slots[j].Some? ==> slots[j].value < next && indices[slots[j].value] == j
      invariant forall k | 0 <= k < next :: slots[indices[k]] == Some(k)
    {
      var value := if next < |indices| then indices[next] else -1;
      if i == value {
        slots := slots + [Some(next)];
        next := next + 1;
      } else {
        slots := slots + [None];
      }
    }
  }

  lemma {:induction false} MergedSlots(n: Node, indices: seq<nat>, slots: seq<Option<nat>>)
    requires WellFormed(n) && n.children != [] && IndicesOf(n, indices) && Merged(indices, slots)
    ensures SlotsRight(n, slots)
  {
  }

  /** A table that dispatches every discriminator value to its subgroup and all other values to none. */
  ghost predicate SlotsRight(n: Node, slots: seq<Option<nat>>)
    requires WellFormed(n) && n.children != []
  {
    && (forall i | 0 <= i < |slots| :: slots[i].Some? ==> slots[i].value < |n.children| && ChildIndex(n, n.children[slots[i].value]) == i)
    && (forall k | 0 <= k < |n.children| :: ChildIndex(n, n.children[k]) < |slots| && slots[ChildIndex(n, n.children[k])] == Some(k))
  }

  /** An encoding group under construction: the fields of the generator's object. */
  class EncodingGroup {
    const parent: EncodingGroup?
    const ignore: Word
    var mask: Word
    var varying: Word
    var constant: Word
    var value: Word
    var lastValue: Word
    var discriminator: Word
    var discriminatorSize: nat
    var discriminatorRecipe: seq<Step>
    var simpleDecoding: bool
    var encodingVec: seq<Encoding>
    var encodingGroupVec: seq<EncodingGroup>
    /** The trees of the subgroups, and the group with all groups below it. */
    ghost var subtrees: seq<Node>
    ghost var Repr: set<object>

    constructor (parent: EncodingGroup?, ignore: Word)
      ensures this.parent == parent && this.ignore == ignore
      ensures Collecting() && encodingVec == [] && Repr == {this}
    {
      this.parent, this.ignore := parent, ignore;
      mask, varying, constant, value, lastValue, discriminator := {}, {}, {}, {}, {}, {};
      discriminatorSize, discriminatorRecipe, simpleDecoding := 0, [], false;
      encodingVec, encodingGroupVec, subtrees := [], [], [];
      Repr := {this};
    }

    ghost function Tree(): Node
      reads this
    {
      Node(ignore, mask, varying, constant, discriminator, encodingVec, subtrees)
    }

    /** No subgroups, no discriminator yet. */
    ghost predicate Flat()
      reads this
    {
      encodingGroupVec == [] && subtrees == [] && Repr == {this}
    }

    /** While encodings are added, the masks summarise those added so far. */
    ghost predicate Collecting()
      reads this
    {
      && Flat()
      && (encodingVec == [] ==> varying == {})
      && (encodingVec != [] ==> Summary() && lastValue == encodingVec[|encodingVec| - 1].value)
    }

    ghost predicate Summary()
      reads this
      requires encodingVec != []
    {
      && mask == Common(encodingVec) - ignore
      && varying == Differ(encodingVec)
      && constant == mask - varying
      && value == encodingVec[0].value * constant
    }

    /** All encodings are in, and they agree on the bits of the path. */
    ghost predicate Collected()
      reads this
    {
      && Flat() && encodingVec != [] && Summary()
      && PathInvariant(ignore, encodingVec)
    }

    /** The bits of the parent are among the bits dealt with. */
    ghost predicate ParentHandled()
      reads this, parent
    {
      parent != null ==> parent != this && parent.mask <= ignore
    }

    method AddEncoding(enc: Encoding)
      requires Collecting()
      modifies this
      ensures Collecting() && encodingVec == old(encodingVec) + [enc]
    {
      if encodingVec == [] {
        lastValue := enc.value;
        mask := enc.mask;
      }
      GrowSummary(encodingVec, enc, ignore, mask, varying, lastValue);
      encodingVec := encodingVec + [enc];
      mask := mask * (enc.mask - ignore);
      var v := enc.value;
      varying := varying + ((v - lastValue) + (lastValue - v));
      constant := (mask - varying) - ignore;
      assert constant == mask - varying;
      lastValue := v;
      value := encodingVec[0].value * constant;
    }

    /** Whether the group is empty or shares a significant bit with the encoding. */
    method CanAddEncoding(enc: Encoding) returns (can: bool)
      requires Collecting()
      ensures can <==> encodingVec == [] || mask * enc.mask != {}
    {
      if encodingVec == [] {
        return true;
      }
      var newMask := mask * enc.mask;
      return newMask != {};
    }

    /** Removing the parent's bits leaves every mask as it is, because they are among the bits dealt with;
        the encodings are sorted by their masked value. */
    method AdjustMask()
      requires Collected() && ParentHandled()
      modifies this
      ensures Collected()
      ensures unchanged(`mask, `varying, `constant, `discriminator, `discriminatorSize, `discriminatorRecipe, `simpleDecoding)
      ensures multiset(encodingVec) == old(multiset(encodingVec))
      ensures SortedBy(encodingVec, mask - constant)
    {
      SummaryFacts(Tree().(discriminator := mask - constant));
      if parent != null {
        var parentMask := parent.mask;
        constant := constant - parentMask;
        mask := mask - parentMask;
        varying := varying - parentMask;
        value := value - parentMask;
        assert mask == old(mask) && constant == old(constant) && varying == old(varying);
        assert value == old(value) by { assert value <= constant; }
      }
      assert (mask - constant) - ignore == mask - constant;
      var sorted := Sort(encodingVec, (mask - constant) - ignore);
      SamePermutation(encodingVec, sorted);
      PathPermutation(ignore, encodingVec, sorted);
      assert sorted[0] in encodingVec;
      encodingVec := sorted;
    }

    /** A table of opcodes suffices only if every encoding has specializations and nothing else to check. */
    method IsSimpleDecode() returns (simple: bool)
      ensures simple <==> encodingGroupVec == [] && discriminator == varying &&
                          forall e | e in encodingVec :: e.other == [] && e.extracted == [] && e.specialized
    {
      if encodingGroupVec != [] {
        return false;
      }
      for i := 0 to |encodingVec|
        invariant forall j | 0 <= j < i :: encodingVec[j].other == [] && encodingVec[j].extracted == [] && encodingVec[j].specialized
      {
        var enc := encodingVec[i];
        if enc.other != [] || enc.extracted != [] || !enc.specialized {
          return false;
        }
      }
      return discriminator == varying;
    }

    /** The group without its subgroups. */
    ghost function Bare(): Node
      reads this
    {
      Node(ignore, mask, varying, constant, discriminator, encodingVec, [])
    }

    ghost predicate Emittable()
      reads this
    {
      EmitReady(encodingVec, discriminator, discriminatorRecipe, discriminatorSize, simpleDecoding)
    }

    /** A leaf emitted as a table of opcodes. */
    predicate IsTable()
      reads this
    {
      encodingGroupVec == [] && simpleDecoding
    }

    /** The discriminator is set; subgroups may be split off. */
    ghost predicate Splitting()
      reads this
    {
      CanSplit(Bare()) && Emittable()
    }

    /** The subgroups are finished, their trees are the subtrees, and this group is not among them. */
    ghost predicate Owns()
      reads this, Repr
      decreases Repr, 0
    {
      && this in Repr && |subtrees| == |encodingGroupVec|
      && forall k | 0 <= k < |encodingGroupVec| ::
           var c := encodingGroupVec[k];
           c in Repr && c.Repr <= Repr && this !in c.Repr && c.Finished() && c.Tree() == subtrees[k]
    }

    ghost predicate Finished()
      reads this, Repr
      decreases Repr, 1
    {
      Owns() && Emittable()
    }

    /** Some table of opcodes would need two of them at one place. */
    ghost predicate HasDuplicate()
      reads this, Repr
      decreases Repr
    {
      || (IsTable() && !DistinctBy(encodingVec, discriminator))
      || exists k :: 0 <= k < |encodingGroupVec| && DuplicateBelow(encodingGroupVec[k])
    }

    ghost predicate DuplicateBelow(c: EncodingGroup)
      reads this, Repr
      decreases Repr, 0
    {
      c in Repr && c.Repr < Repr && c.HasDuplicate()
    }

    /** The indices of tables of opcodes fit in an int. */
    ghost predicate NarrowTables()
      reads this, Repr
      decreases Repr
    {
      && (IsTable() ==> Popcount(discriminator) <= 31)
      && forall k | 0 <= k < |encodingGroupVec| :: NarrowBelow(encodingGroupVec[k])
    }

    ghost predicate NarrowBelow(c: EncodingGroup)
      reads this, Repr
      decreases Repr, 0
    {
      c in Repr && c.Repr < Repr ==> c.NarrowTables()
    }

    /** As long as no encoding has specializations there are no tables of opcodes. */
    lemma {:induction false} PlainHasNoTables()
      requires Finished() && WellFormed(Tree()) && Plain(encodingVec)
      ensures NarrowTables() && !HasDuplicate()
      decreases Repr
    {
      assert Unfold(Emits);
      assert Summarized(Tree()) && encodingVec[0] in encodingVec;
      forall k | 0 <= k < |encodingGroupVec|
        ensures NarrowBelow(encodingGroupVec[k]) && !DuplicateBelow(encodingGroupVec[k])
      {
        ChildReady(Tree(), k);
        encodingGroupVec[k].PlainHasNoTables();
      }
    }

    /** A new group with the encodings that have discriminator value i. */
    method MakeSubGroup(i: nat) returns (group: EncodingGroup)
      requires Extracts(discriminatorRecipe, discriminator)
      ensures fresh(group) && group.parent == this && group.ignore == ignore + constant + discriminator
      ensures group.Collecting() && group.encodingVec == Filter(encodingVec, discriminator, i)
    {
      group := new EncodingGroup(this, ignore + constant + discriminator);
      for j := 0 to |encodingVec|
        invariant group.Collecting()
        invariant group.encodingVec == Filter(encodingVec[..j], discriminator, i)
      {
        var enc := encodingVec[j];
        assert encodingVec[..j + 1] == encodingVec[..j] + [enc];
        FilterAppend(encodingVec[..j], enc, discriminator, i);
        var extracted := ExtractValue(enc.value, discriminatorRecipe);
        if Num(extracted, 64) == i {
          group.AddEncoding(enc);
        }
      }
      assert encodingVec[..|encodingVec|] == encodingVec;
    }

    /** Sorts the encodings and sets the discriminator. */
    method SetDiscriminator()
      requires Collected() && ParentHandled()
      modifies this
      ensures Flat() && Splitting() && Bare() == Tree()
      ensures unchanged(`mask, `varying, `constant) && multiset(encodingVec) == old(multiset(encodingVec))
      ensures discriminator == mask - constant && SortedBy(encodingVec, discriminator)
      ensures |encodingVec| == old(|encodingVec|)
    {
      ghost var before := encodingVec;
      AdjustMask();
      SamePermutation(before, encodingVec);
      discriminator := mask - constant;
      simpleDecoding := IsSimpleDecode();
      discriminatorRecipe := GetExtractionRecipe(mask - constant);
      discriminatorSize := if discriminator == {} then 0 else Pow2(Popcount(discriminator));
    }

    /** Splits the group by the values of its discriminator, and the subgroups in turn where that pays off. */
    method AddSubGroups()
      requires Collected() && ParentHandled()
      modifies this
      ensures Finished() && fresh(Repr - {this})
      ensures SplitTree(Tree())
      ensures unchanged(`mask, `varying, `constant) && multiset(encodingVec) == old(multiset(encodingVec))
      decreases |encodingVec|, 3
    {
      SetDiscriminator();
      ghost var n := Bare();
      SplitAll(n);
      assert Tree() == n.(children := subtrees);
      SplitDoneFolded(n, subtrees);
    }

    /** Splits off a subgroup for each value of the discriminator, in increasing order. */
    method SplitAll(ghost n: Node)
      requires Flat() && Splitting() && n == Bare()
      modifies `encodingGroupVec, `subtrees, `Repr
      ensures Finished() && fresh(Repr - {this})
      ensures FullySplit(n, subtrees)
      decreases |encodingVec|, 2
    {
      for i := 0 to Pow2(Popcount(discriminator))
        invariant SplitUpTo(n, i)
        invariant fresh(Repr - {this})
        invariant i > 0 ==> n.discriminator != {}
      {
        var whole := SplitNext(n, i);
        if whole {
          return;
        }
      }
      OpenSplit(n, Pow2(Popcount(discriminator)));
    }

    /** The subgroups for the discriminator values below i have been split off; folded. */
    ghost predicate SplitUpTo(n: Node, i: nat)
      reads this, Repr
    {
      forall t: Token {:trigger Unfold(t)} :: t == Halfway && Unfold(t) ==> Owns() && Splitting() && n == Bare() && PartlySplit(n, subtrees, i)
    }

    lemma {:induction false} OpenSplit(n: Node, i: nat)
      requires SplitUpTo(n, i)
      ensures Owns() && Splitting() && n == Bare() && PartlySplit(n, subtrees, i)
    {
      assert Unfold(Halfway);
    }

    method SplitNext(ghost n: Node, i: nat) returns (whole: bool)
      requires SplitUpTo(n, i) && (i == 0 || n.discriminator != {})
      modifies `encodingGroupVec, `subtrees, `Repr
      ensures fresh(Repr - old(Repr))
      ensures whole ==> unchanged(this) && Finished() && FullySplit(n, subtrees)
      ensures !whole ==> SplitUpTo(n, i + 1) && n.discriminator != {}
      decreases |encodingVec|, 1
    {
      OpenSplit(n, i);
      whole := SplitOff(n, i);
    }

    /** Makes the subgroup for one discriminator value, unless it would be empty or hold all encodings. */
    method SplitOff(ghost n: Node, i: nat) returns (whole: bool)
      requires Owns() && Splitting() && n == Bare() && PartlySplit(n, subtrees, i)
      requires i == 0 || n.discriminator != {}
      modifies `encodingGroupVec, `subtrees, `Repr
      ensures Owns()
      ensures fresh(Repr - old(Repr))
      ensures whole ==> unchanged(this) && FullySplit(n, subtrees)
      ensures !whole ==> PartlySplit(n, subtrees, i + 1) && n.discriminator != {}
      decreases |encodingVec|, 0
    {
      assert Unfold(Emits);
      var group := MakeSubGroup(i);
      whole := |group.encodingVec| == |encodingVec|;
      WholeIff(n, subtrees, i);
      if group.encodingVec == [] {
        SkipValue(n, subtrees, i);
      } else if !whole {
        AddSubGroup(group, n, i);
      }
    }

    /** Settles a subgroup and appends it. */
    method AddSubGroup(group: EncodingGroup, ghost n: Node, ghost i: nat)
      requires Owns() && Splitting() && n == Bare() && PartlySplit(n, subtrees, i)
      requires group != this && group !in Repr && group.parent == this && group.ignore == ignore + constant + discriminator
      requires group.Collecting() && group.encodingVec == Filter(encodingVec, discriminator, i)
      requires 0 < |group.encodingVec| < |encodingVec|
      modifies group, `encodingGroupVec, `subtrees, `Repr
      ensures Owns() && PartlySplit(n, subtrees, i + 1)
      ensures fresh(Repr - old(Repr) - {group})
      decreases |group.encodingVec|, 7
    {
      SettleChild(group, n, subtrees, i);
      Adopt(group);
    }

    /** Settles the subgroup for discriminator value i of n, which extends the subgroups made so far. */
    method SettleChild(group: EncodingGroup, ghost n: Node, ghost trees: seq<Node>, ghost i: nat)
      requires CanSplit(n) && PartlySplit(n, trees, i) && mask == n.mask
      requires group != this && group.parent == this && group.ignore == n.ignore + n.constant + n.discriminator
      requires group.Collecting() && group.encodingVec == Filter(n.encs, n.discriminator, i) && group.encodingVec != []
      modifies group
      ensures group.Finished() && fresh(group.Repr - {group})
      ensures PartlySplit(n, trees + [group.Tree()], i + 1)
      decreases |group.encodingVec|, 6
    {
      ReadyToSettle(n, i);
      Settle(group);
      NewSubtree(n, trees, i, group.Tree());
    }

    /** Appends a finished subgroup. */
    method Adopt(group: EncodingGroup)
      requires Owns() && group.Finished() && this !in group.Repr
      modifies `encodingGroupVec, `subtrees, `Repr
      ensures Owns() && Repr == old(Repr) + group.Repr
      ensures encodingGroupVec == old(encodingGroupVec) + [group] && subtrees == old(subtrees) + [old(group.Tree())]
    {
      encodingGroupVec := encodingGroupVec + [group];
      subtrees := subtrees + [group.Tree()];
      Repr := Repr + group.Repr;
    }

    /** Splits a new subgroup if it varies outside its common bits, and undoes the split unless one of the
        groups it makes still varies in two or more bits. */
    method Settle(group: EncodingGroup)
      requires group.Collected() && group.ParentHandled() && group.parent == this
      modifies group
      ensures group.Finished() && fresh(group.Repr - {group})
      ensures WellFormed(group.Tree()) && Settled(group.Tree())
      ensures multiset(group.encodingVec) == old(multiset(group.encodingVec))
      decreases |group.encodingVec|, 5
    {
      ghost var before := group.encodingVec;
      group.AdjustMask();
      SamePermutation(before, group.encodingVec);
      if group.varying + group.constant != group.mask {
        group.SplitAndUndo();
      } else {
        group.BecomeLeaf();
      }
    }

    method SplitAndUndo()
      requires Collected() && ParentHandled() && !(varying <= mask)
      modifies this
      ensures Finished() && fresh(Repr - {this})
      ensures WellFormed(Tree()) && Settled(Tree())
      ensures multiset(encodingVec) == old(multiset(encodingVec))
      decreases |encodingVec|, 4
    {
      AddSubGroups();
      OpenTree(Tree());
      UndoneIsSettled(Tree());
      PoorSplit(Tree());
      UndoPoorSplit();
    }

    method BecomeLeaf()
      requires Collected() && ParentHandled() && varying <= mask
      modifies this
      ensures Finished() && Repr == {this}
      ensures WellFormed(Tree()) && Settled(Tree())
      ensures multiset(encodingVec) == old(multiset(encodingVec))
    {
      SetDiscriminator();
      discriminatorSize := Pow2(Popcount(discriminator));
    }

    /** The largest number of varying bits of a subgroup. */
    method MaxVarying() returns (max: nat)
      ensures max < 2 <==> forall j | 0 <= j < |encodingGroupVec| :: Popcount(encodingGroupVec[j].varying) < 2
    {
      max := 0;
      for k := 0 to |encodingGroupVec|
        invariant max < 2 <==> forall j | 0 <= j < k :: Popcount(encodingGroupVec[j].varying) < 2
      {
        var bits := Popcount(encodingGroupVec[k].varying);
        if bits > max { max := bits; }
      }
    }

    /** Drops the subgroups if none of them varies in two or more bits. */
    method UndoPoorSplit()
      requires Finished()
      requires (forall k | 0 <= k < |subtrees| :: Popcount(subtrees[k].varying) < 2) <==> !WorthSplitting(Tree())
      modifies `encodingGroupVec, `subtrees
      ensures Finished() && Tree() == Undone(old(Tree()))
    {
      forall k | 0 <= k < |encodingGroupVec|
        ensures encodingGroupVec[k].varying == subtrees[k].varying
      {
        assert encodingGroupVec[k].Tree() == subtrees[k];
      }
      var max := MaxVarying();
      if max < 2 {
        ClearSubGroups();
      }
    }

    method ClearSubGroups()
      requires Finished()
      modifies `encodingGroupVec, `subtrees
      ensures Finished() && Tree() == old(Tree()).(children := [])
    {
      encodingGroupVec := [];
      subtrees := [];
    }

    /** The discriminator values of the subgroups. */
    method SubgroupIndices(ghost n: Node) returns (indices: seq<nat>)
      requires Finished() && n == Tree() && forall k | 0 <= k < |n.children| :: n.children[k].encs != []
      ensures IndicesOf(n, indices)
    {
      assert Unfold(Emits);
      indices := [];
      for k := 0 to |encodingGroupVec|
        invariant |indices| == k
        invariant forall j | 0 <= j < k :: indices[j] == ChildIndex(n, n.children[j])
      {
        assert encodingGroupVec[k].Tree() == n.children[k];
        var extracted := ExtractValue(encodingGroupVec[k].encodingVec[0].value, discriminatorRecipe);
        indices := indices + [Num(extracted, 64)];
      }
    }

    /** The table of the group: slot i names the subgroup with discriminator value i, or none. */
    method EmitInitializers(ghost n: Node) returns (slots: seq<Option<nat>>)
      requires Finished() && n == Tree() && WellFormed(n) && n.children != []
      ensures |slots| == Pow2(Popcount(n.discriminator)) && SlotsRight(n, slots)
    {
      assert Unfold(Emits);
      var indices := SubgroupIndices(n);
      IndicesInBounds(n, indices);
      slots := MergeSlots(indices, discriminatorSize);
      MergedSlots(n, indices, slots);
    }

    /** Reports encodings with the same opcode, but only those of opcode tables: something is reported exactly
        when such a table holds two encodings with one discriminator value. */
    method CheckEncodings() returns (errors: seq<(Encoding, Encoding)>)
      requires Finished() && NarrowTables()
      ensures encodingGroupVec == [] ==> errors == if simpleDecoding then Collisions(encodingVec, discriminator) else []
      ensures errors != [] <==> HasDuplicate()
      decreases Repr
    {
      assert Unfold(Emits);
      errors := [];
      if encodingGroupVec == [] && simpleDecoding {
        errors := FindDuplicates(encodingVec, discriminator, discriminatorRecipe);
        CollisionsFound(encodingVec, discriminator);
      }
      for k := 0 to |encodingGroupVec|
        invariant encodingGroupVec == [] ==> errors == if simpleDecoding then Collisions(encodingVec, discriminator) else []
        invariant errors != [] <==>
                  || (IsTable() && !DistinctBy(encodingVec, discriminator))
                  || exists j :: 0 <= j < k && DuplicateBelow(encodingGroupVec[j])
      {
        assert NarrowBelow(encodingGroupVec[k]);
        var more := encodingGroupVec[k].CheckEncodings();
        errors := errors + more;
      }
    }

    /** The decoders of the subgroups. */
    method EmitSubgroups() returns (decoders: seq<Code>)
      requires Finished() && WellFormed(Tree()) && subtrees != []
      requires Plain(encodingVec)
      ensures CodesFor(decoders, subtrees, |subtrees|)
      decreases Repr, 0
    {
      decoders := [];
      for k := 0 to |encodingGroupVec|
        invariant CodesFor(decoders, subtrees, k)
      {
        var group := encodingGroupVec[k];
        ghost var tree := subtrees[k];
        ChildReady(Tree(), k);
        assert group.Tree() == tree;
        var decoder := group.EmitDecoders();
        OneMoreCode(decoders, subtrees, k, decoder);
        decoders := decoders + [decoder];
      }
    }

    /** The decoder of a group with subgroups dispatches through a table. */
    method EmitTable(ghost n: Node) returns (body: Body)
      requires Finished() && n == Tree() && WellFormed(n) && n.children != [] && Plain(n.encs)
      ensures IsBodyFor(body, n)
      decreases Repr, 1
    {
      var slots := EmitInitializers(n);
      var decoders := EmitSubgroups();
      assert Extracts(discriminatorRecipe, n.discriminator) by { assert Unfold(Emits); }
      body := LinkTable(n, slots, decoders, discriminatorRecipe);
    }

    /** The decoder of a leaf; it is no opcode table as long as specializations are missing. */
    method EmitLeaf(ghost n: Node) returns (body: Body)
      requires Finished() && n == Tree() && WellFormed(n) && n.children == [] && Plain(n.encs)
      ensures IsBodyFor(body, n)
    {
      assert encodingVec[0] in encodingVec;
      body := EmitComplexDecoderBody();
      LeafIsCode(n, Code(constant, encodingVec[0].value * constant, body));
    }

    /** The decoder of the group and of the groups below it. */
    method EmitDecoders() returns (code: Code)
      requires Finished() && WellFormed(Tree())
      requires Plain(encodingVec)
      ensures CodeFor(code, Tree())
      decreases Repr, 2
    {
      var constValue := encodingVec[0].value * constant;
      var body;
      if encodingGroupVec != [] {
        body := EmitTable(Tree());
      } else {
        body := EmitLeaf(Tree());
      }
      code := Code(constant, constValue, body);
      BodyIsCode(Tree(), body, code);
    }

    /** A leaf: a chain of ifs without a discriminator, otherwise a switch over its values. */
    method EmitComplexDecoderBody() returns (body: Body)
      requires Emittable() && AllEncodings(encodingVec)
      ensures IsLeafBody(body, encodingVec, discriminator, ignore + discriminator)
    {
      assert Unfold(Emits);
      if discriminatorRecipe == [] {
        EmptyRecipe(discriminator);
        var arms := EmitIfSequence(encodingVec, ignore + discriminator);
        return IfChain(arms);
      }
      var byIndex := GroupByIndex(encodingVec, discriminator, discriminatorRecipe);
      var cases := EmitCases(byIndex, encodingVec, discriminator, ignore + discriminator);
      body := Switch(discriminatorRecipe, cases);
    }
  }
}
