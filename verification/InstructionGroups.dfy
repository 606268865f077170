/** Instruction groups: top-level encoding groups, the whole decoder, and the table of the encoder. */
module InstructionGroups {
  import opened Words
  import opened Folding
  import opened Status
  import opened Extract
  import opened InstructionEncodings
  import opened DecisionTrees
  import opened DecoderCorrectness
  import opened Braces
  import opened EncodingGroups

  // ----- partitioning into groups -----

  function MaskNumber(e: Encoding): nat {
    Num(e.mask, 64)
  }

  /** Insertion into a multimap keyed by mask: behind the encodings with the same mask. */
  function InsertByMask(encs: seq<Encoding>, e: Encoding): seq<Encoding> {
    if encs == [] || MaskNumber(e) < MaskNumber(encs[0]) then [e] + encs
    else [encs[0]] + InsertByMask(encs[1..], e)
  }

  function ByMask(encs: seq<Encoding>): seq<Encoding> {
    if encs == [] then [] else InsertByMask(ByMask(encs[..|encs| - 1]), encs[|encs| - 1])
  }

  /** The group takes the encoding if it is empty or shares a significant bit with it. */
  predicate Accepts(group: seq<Encoding>, e: Encoding) {
    group == [] || Common(group) * e.mask != {}
  }

  /** The encoding goes to the first group that takes it, or to a new one. */
  function FirstFit(groups: seq<seq<Encoding>>, e: Encoding): seq<seq<Encoding>> {
    if groups == [] then [[e]]
    else if Accepts(groups[0], e) then [groups[0] + [e]] + groups[1..]
    else [groups[0]] + FirstFit(groups[1..], e)
  }

  function FirstFitAll(groups: seq<seq<Encoding>>, encs: seq<Encoding>): seq<seq<Encoding>>
    decreases encs
  {
    if encs == [] then groups else FirstFitAll(FirstFit(groups, encs[0]), encs[1..])
  }

  function Flatten(groups: seq<seq<Encoding>>): seq<Encoding> {
    if groups == [] then [] else groups[0] + Flatten(groups[1..])
  }

  /** No group is empty, and two encodings share a group only with a significant bit in common to all of it. */
  ghost predicate GoodGroups(groups: seq<seq<Encoding>>) {
    forall k | 0 <= k < |groups| :: groups[k] != [] && (|groups[k]| >= 2 ==> Common(groups[k]) != {})
  }

  lemma {:induction false} InsertKeepsAll(encs: seq<Encoding>, e: Encoding)
    ensures multiset(InsertByMask(encs, e)) == multiset(encs) + multiset{e}
  {
    if encs != [] && MaskNumber(e) >= MaskNumber(encs[0]) {
      InsertKeepsAll(encs[1..], e);
      assert encs == [encs[0]] + encs[1..];
    }
  }

  lemma {:induction false} ByMaskKeepsAll(encs: seq<Encoding>)
    ensures multiset(ByMask(encs)) == multiset(encs)
  {
    if encs != [] {
      ByMaskKeepsAll(encs[..|encs| - 1]);
      InsertKeepsAll(ByMask(encs[..|encs| - 1]), encs[|encs| - 1]);
      assert encs == encs[..|encs| - 1] + [encs[|encs| - 1]];
    }
  }

  lemma {:induction false} FirstFitGood(groups: seq<seq<Encoding>>, e: Encoding)
    requires GoodGroups(groups)
    ensures GoodGroups(FirstFit(groups, e))
    ensures multiset(Flatten(FirstFit(groups, e))) == multiset(Flatten(groups)) + multiset{e}
  {
    if groups == [] {
      assert [[e]][1..] == [];
    } else {
      var first, rest := groups[0], groups[1..];
      assert GoodGroups(rest);
      if Accepts(first, e) {
        SummaryAppend(first, e);
        assert ([first + [e]] + rest)[1..] == rest;
      } else {
        FirstFitGood(rest, e);
        var fitted := FirstFit(rest, e);
        assert ([first] + fitted)[1..] == fitted;
      }
    }
  }

  /** Every encoding ends up in exactly one group. */
  lemma {:induction false} FirstFitAllGood(groups: seq<seq<Encoding>>, encs: seq<Encoding>)
    requires GoodGroups(groups)
    ensures GoodGroups(FirstFitAll(groups, encs))
    ensures multiset(Flatten(FirstFitAll(groups, encs))) == multiset(Flatten(groups)) + multiset(encs)
    decreases encs
  {
    if encs != [] {
      var e, rest := encs[0], encs[1..];
      FirstFitGood(groups, e);
      FirstFitAllGood(FirstFit(groups, e), rest);
      assert multiset(encs) == multiset{e} + multiset(rest) by { assert encs == [e] + rest; }
    }
  }

  // ----- encodings with the same mask -----

  predicate SortedByMask(encs: seq<Encoding>) {
    |encs| <= 1 || (MaskNumber(encs[0]) <= MaskNumber(encs[1]) && SortedByMask(encs[1..]))
  }

  lemma {:induction false} InsertSortsMasks(encs: seq<Encoding>, e: Encoding)
    requires SortedByMask(encs)
    ensures SortedByMask(InsertByMask(encs, e))
  {
    if encs == [] || MaskNumber(e) < MaskNumber(encs[0]) {
      assert ([e] + encs)[1..] == encs;
    } else {
      InsertSortsMasks(encs[1..], e);
      assert InsertByMask(encs, e)[1..] == InsertByMask(encs[1..], e);
    }
  }

  lemma {:induction false} ByMaskSorted(encs: seq<Encoding>)
    ensures SortedByMask(ByMask(encs))
  {
    if encs != [] {
      ByMaskSorted(encs[..|encs| - 1]);
      InsertSortsMasks(ByMask(encs[..|encs| - 1]), encs[|encs| - 1]);
    }
  }

  /** The encodings with a given mask number, in their order. */
  function WithNumber(encs: seq<Encoding>, number: nat): seq<Encoding> {
    if encs == [] then [] else (if MaskNumber(encs[0]) == number then [encs[0]] else []) + WithNumber(encs[1..], number)
  }

  lemma {:induction false} NoneWithNumber(encs: seq<Encoding>, number: nat)
    requires SortedByMask(encs) && (encs != [] ==> number < MaskNumber(encs[0]))
    ensures WithNumber(encs, number) == []
  {
    if encs != [] { NoneWithNumber(encs[1..], number); }
  }

  lemma {:induction false} InsertBehind(encs: seq<Encoding>, e: Encoding, number: nat)
    requires SortedByMask(encs)
    ensures WithNumber(InsertByMask(encs, e), number) == WithNumber(encs, number) + if MaskNumber(e) == number then [e] else []
  {
    var all := InsertByMask(encs, e);
    if encs == [] || MaskNumber(e) < MaskNumber(encs[0]) {
      assert all[1..] == encs;
      if MaskNumber(e) == number { NoneWithNumber(encs, number); }
    } else {
      InsertBehind(encs[1..], e, number);
      assert all == [encs[0]] + InsertByMask(encs[1..], e) && all[1..] == InsertByMask(encs[1..], e);
    }
  }

  lemma {:induction false} WithNumberAppend(encs: seq<Encoding>, e: Encoding, number: nat)
    ensures WithNumber(encs + [e], number) == WithNumber(encs, number) + if MaskNumber(e) == number then [e] else []
  {
    if encs == [] {
      assert ([] + [e])[1..] == [];
    } else {
      WithNumberAppend(encs[1..], e, number);
      assert (encs + [e])[1..] == encs[1..] + [e];
    }
  }

  /** The map keeps encodings with one mask in the order in which they were added. */
  lemma {:induction false} ByMaskKeepsOrder(encs: seq<Encoding>, number: nat)
    ensures WithNumber(ByMask(encs), number) == WithNumber(encs, number)
  {
    if encs != [] {
      var front, last := encs[..|encs| - 1], encs[|encs| - 1];
      ByMaskKeepsOrder(front, number);
      ByMaskSorted(front);
      InsertBehind(ByMask(front), last, number);
      WithNumberAppend(front, last, number);
      assert front + [last] == encs;
    }
  }

  /** Encodings of different groups have different masks, unless their mask is empty. */
  ghost predicate MasksTogether(groups: seq<seq<Encoding>>) {
    forall j, k, e, f | 0 <= j < |groups| && 0 <= k < |groups| && e in groups[j] && f in groups[k] && e.mask == f.mask && e.mask != {} :: j == k
  }

  /** The encoding placed last is in group i, which is the first one that takes its mask. */
  ghost predicate PlacedLast(groups: seq<seq<Encoding>>, last: Encoding, i: nat) {
    && i < |groups| && last in groups[i]
    && (forall j | 0 <= j < i :: !Accepts(groups[j], last))
    && (last.mask != {} ==> Accepts(groups[i], last))
    && (forall j, e | 0 <= j < |groups| && e in groups[j] :: MaskNumber(e) <= MaskNumber(last))
  }

  /** The place of the first group that takes the encoding. */
  function FitIndex(groups: seq<seq<Encoding>>, e: Encoding): nat {
    if groups == [] || Accepts(groups[0], e) then 0 else 1 + FitIndex(groups[1..], e)
  }

  lemma {:induction false} FitIndexFacts(groups: seq<seq<Encoding>>, e: Encoding)
    ensures var i := FitIndex(groups, e);
            && i <= |groups| && (forall j | 0 <= j < i :: !Accepts(groups[j], e))
            && (i < |groups| ==> Accepts(groups[i], e))
            && FirstFit(groups, e) == if i < |groups| then groups[i := groups[i] + [e]] else groups + [[e]]
  {
    var i := FitIndex(groups, e);
    if groups != [] && !Accepts(groups[0], e) {
      FitIndexFacts(groups[1..], e);
      assert forall j | 1 <= j < |groups| :: groups[j] == groups[1..][j - 1];
    }
    if i < |groups| { FitsHere(groups, e, i); } else { FitsNowhere(groups, e); }
  }

  lemma {:induction false} StillAccepted(group: seq<Encoding>, e: Encoding)
    requires Accepts(group, e) && e.mask != {}
    ensures Accepts(group + [e], e)
  {
    if group != [] {
      SummaryAppend(group, e);
      assert (Common(group) * e.mask) * e.mask == Common(group) * e.mask;
    } else {
      SummarySingle(e);
      assert group + [e] == [e] && e.mask * e.mask == e.mask;
    }
  }

  /** Where the members of the groups come from after one more placement. */
  lemma {:induction false} MemberAfter(groups: seq<seq<Encoding>>, e: Encoding, j: nat, f: Encoding)
    requires j < |FirstFit(groups, e)| && f in FirstFit(groups, e)[j]
    ensures (j < |groups| && f in groups[j]) || (f == e && j == FitIndex(groups, e))
  {
    FitIndexFacts(groups, e);
  }

  lemma {:induction false} PlaceAfter(groups: seq<seq<Encoding>>, last: Encoding, i: nat, e: Encoding)
    requires GoodGroups(groups) && PlacedLast(groups, last, i) && MaskNumber(last) <= MaskNumber(e)
    ensures PlacedLast(FirstFit(groups, e), e, FitIndex(groups, e))
  {
    var k, after := FitIndex(groups, e), FirstFit(groups, e);
    FitIndexFacts(groups, e);
    if e.mask != {} { StillAccepted(if k < |groups| then groups[k] else [], e); }
    assert after[k] == (if k < |groups| then groups[k] else []) + [e];
    forall j, f | 0 <= j < |after| && f in after[j]
      ensures MaskNumber(f) <= MaskNumber(e)
    {
      MemberAfter(groups, e, j, f);
    }
  }

  /** Only the group of the encoding placed last can hold the mask of the next one. */
  lemma {:induction false} SameMaskLast(groups: seq<seq<Encoding>>, last: Encoding, i: nat, e: Encoding, j: nat, f: Encoding)
    requires MasksTogether(groups) && PlacedLast(groups, last, i) && MaskNumber(last) <= MaskNumber(e)
    requires j < |groups| && f in groups[j] && f.mask == e.mask && e.mask != {}
    ensures last.mask == e.mask && j == i
  {
    assert MaskNumber(f) <= MaskNumber(last);
    NumInjective(last.mask, e.mask, 64);
  }

  /** An encoding with the mask of the last one follows it into its group. */
  lemma {:induction false} SameFit(groups: seq<seq<Encoding>>, last: Encoding, i: nat, e: Encoding)
    requires PlacedLast(groups, last, i) && last.mask == e.mask && e.mask != {}
    ensures FitIndex(groups, e) == i
  {
    FitIndexFacts(groups, e);
    assert forall j | 0 <= j < |groups| :: Accepts(groups[j], e) <==> Accepts(groups[j], last);
  }

  lemma {:induction false} OldAndNew(groups: seq<seq<Encoding>>, last: Encoding, i: nat, e: Encoding, j: nat, f: Encoding)
    requires MasksTogether(groups) && PlacedLast(groups, last, i) && MaskNumber(last) <= MaskNumber(e)
    requires j < |groups| && f in groups[j] && f.mask == e.mask && e.mask != {}
    ensures j == FitIndex(groups, e)
  {
    SameMaskLast(groups, last, i, e, j, f);
    SameFit(groups, last, i, e);
  }

  lemma {:induction false} StepTogether(groups: seq<seq<Encoding>>, last: Encoding, i: nat, e: Encoding)
    requires MasksTogether(groups) && PlacedLast(groups, last, i) && MaskNumber(last) <= MaskNumber(e)
    ensures MasksTogether(FirstFit(groups, e))
  {
    var after := FirstFit(groups, e);
    forall j, l, f: Encoding, g: Encoding | 0 <= j < |after| && 0 <= l < |after| && f in after[j] && g in after[l] && f.mask == g.mask && f.mask != {}
      ensures j == l
    {
      MemberAfter(groups, e, j, f);
      MemberAfter(groups, e, l, g);
      if j < |groups| && f in groups[j] && f.mask == e.mask { OldAndNew(groups, last, i, e, j, f); }
      if l < |groups| && g in groups[l] && g.mask == e.mask { OldAndNew(groups, last, i, e, l, g); }
    }
  }

  lemma {:induction false} RestTogether(groups: seq<seq<Encoding>>, last: Encoding, i: nat, encs: seq<Encoding>)
    requires GoodGroups(groups) && MasksTogether(groups) && PlacedLast(groups, last, i)
    requires encs != [] ==> MaskNumber(last) <= MaskNumber(encs[0])
    requires SortedByMask(encs)
    ensures MasksTogether(FirstFitAll(groups, encs))
    decreases encs
  {
    if encs != [] {
      var e := encs[0];
      StepTogether(groups, last, i, e);
      PlaceAfter(groups, last, i, e);
      FirstFitGood(groups, e);
      RestTogether(FirstFit(groups, e), e, FitIndex(groups, e), encs[1..]);
    }
  }

  /** Encodings with the same non-empty mask end up in the same top-level group. */
  lemma {:induction false} SameMaskTogether(encs: seq<Encoding>)
    ensures MasksTogether(FirstFitAll([], ByMask(encs)))
  {
    var sorted := ByMask(encs);
    ByMaskSorted(encs);
    if sorted != [] {
      var e := sorted[0];
      SummarySingle(e);
      assert e.mask * e.mask == e.mask;
      assert FirstFit([], e) == [[e]];
      RestTogether([[e]], e, 0, sorted[1..]);
    }
  }

  // ----- how many groups there are -----

  lemma {:induction false} GroupsGrow(groups: seq<seq<Encoding>>, encs: seq<Encoding>)
    ensures |FirstFitAll(groups, encs)| >= |groups|
    decreases encs
  {
    if encs != [] {
      FitIndexFacts(groups, encs[0]);
      GroupsGrow(FirstFit(groups, encs[0]), encs[1..]);
    }
  }

  lemma {:induction false} CommonShrinks(a: seq<Encoding>, b: seq<Encoding>)
    requires a != []
    ensures Common(a + b) <= Common(a)
  {
    assert (a + b)[0] == a[0];
    forall e | e in a ensures e in a + b {}
  }

  /** A group takes all further encodings exactly when they share a significant bit with it. */
  lemma {:induction false} OneGroup(group: seq<Encoding>, encs: seq<Encoding>)
    requires group != []
    ensures |FirstFitAll([group], encs)| == 1 <==> encs == [] || Common(group + encs) != {}
    decreases encs
  {
    if encs != [] {
      var e, rest := encs[0], encs[1..];
      SummaryAppend(group, e);
      assert group + encs == (group + [e]) + rest;
      if Accepts(group, e) {
        assert FirstFit([group], e) == [group + [e]];
        OneGroup(group + [e], rest);
        if rest == [] { assert group + encs == group + [e]; }
      } else {
        assert FirstFit([group], e) == [group] + FirstFit([], e);
        GroupsGrow(FirstFit([group], e), rest);
        CommonShrinks(group + [e], rest);
      }
    }
  }

  /** There is more than one top-level group exactly when there are encodings and no significant bit is common to
      all of them. */
  lemma {:induction false} OneGroupIff(encs: seq<Encoding>)
    ensures |FirstFitAll([], ByMask(encs))| <= 1 <==> |encs| <= 1 || Common(encs) != {}
  {
    var sorted := ByMask(encs);
    ByMaskKeepsAll(encs);
    SamePermutation(sorted, encs);
    if sorted != [] {
      assert FirstFit([], sorted[0]) == [[sorted[0]]];
      OneGroup([sorted[0]], sorted[1..]);
      GroupsGrow([[sorted[0]]], sorted[1..]);
      assert [sorted[0]] + sorted[1..] == sorted;
    }
  }

  // ----- the whole decoder -----

  /** The decoders of the top-level groups are tried in turn. */
  ghost function RunAll(decoders: seq<Code>, w: Word): Outcome {
    if decoders == [] then NoMatch
    else if Run(decoders[0], w) != NoMatch then Run(decoders[0], w)
    else RunAll(decoders[1..], w)
  }

  /** Trees of top-level groups. */
  ghost predicate Roots(trees: seq<Node>) {
    forall k | 0 <= k < |trees| :: IsRoot(trees[k])
  }

  /** A well-formed tree without bits dealt with before; folded. */
  ghost predicate IsRoot(n: Node) {
    forall t: Token {:trigger Unfold(t)} :: t == Root && Unfold(t) ==> n.ignore == {} && WellFormed(n) && AllEncodings(n.encs)
  }

  lemma {:induction false} OpenRoot(n: Node)
    requires IsRoot(n)
    ensures n.ignore == {} && WellFormed(n) && AllEncodings(n.encs)
  {
    assert Unfold(Root);
  }

  function Members(trees: seq<Node>): seq<Encoding> {
    if trees == [] then [] else trees[0].encs + Members(trees[1..])
  }

  lemma {:induction false} RootPermutation(n: Node)
    requires IsRoot(n)
    ensures multiset(TreeOrder(n)) == multiset(n.encs)
  {
    OpenRoot(n);
    TreePermutation(n);
  }

  lemma {:induction false} MembersInTreeOrder(trees: seq<Node>)
    requires Roots(trees)
    ensures multiset(TreeOrders(trees)) == multiset(Members(trees))
  {
    if trees != [] {
      RootPermutation(trees[0]);
      MembersInTreeOrder(trees[1..]);
    }
  }

  lemma {:induction false} RootMember(trees: seq<Node>, k: nat, e: Encoding)
    requires k < |trees| && e in trees[k].encs
    ensures e in Members(trees)
  {
    if k > 0 { RootMember(trees[1..], k - 1, e); }
  }

  lemma {:induction false} TailCodes(decoders: seq<Code>, trees: seq<Node>)
    requires Roots(trees) && CodesFor(decoders, trees, |trees|) && trees != []
    ensures Roots(trees[1..]) && CodesFor(decoders[1..], trees[1..], |trees[1..]|)
    ensures IsRoot(trees[0]) && CodeFor(decoders[0], trees[0])
  {
  }

  /** The tree is well formed, and every name that is read on the way of the word has one meaning; folded. */
  ghost predicate OneMeaningIn(n: Node, w: Word) {
    forall t: Token {:trigger Unfold(t)} :: t == Way && Unfold(t) ==> WellFormed(n) && AllEncodings(n.encs) && Agrees(n, w)
  }

  lemma {:induction false} OpenMeaning(n: Node, w: Word)
    requires WellFormed(n) && AllEncodings(n.encs) && OneMeaningIn(n, w)
    ensures Agrees(n, w)
  {
    assert Unfold(Way);
  }

  /** In all groups, every name that is read on the way of the word has one meaning. */
  ghost predicate AllAgree(trees: seq<Node>, w: Word) {
    forall k | 0 <= k < |trees| :: OneMeaningIn(trees[k], w)
  }

  lemma {:induction false} RootOnPath(n: Node, w: Word)
    requires IsRoot(n)
    ensures OnPath(n, w)
  {
    OpenRoot(n);
    assert w * {} == {};
    forall e | e in n.encs ensures e.value * n.ignore == w * n.ignore { assert e.value * {} == {}; }
  }

  lemma {:induction false} RootIsScan(n: Node, code: Code, w: Word)
    requires IsRoot(n) && CodeFor(code, n) && OneMeaningIn(n, w)
    ensures AllEncodings(TreeOrder(n)) && Run(code, w) == LinearScan(TreeOrder(n), w)
  {
    OpenCode(code, n);
    OpenMeaning(n, w);
    RootOnPath(n, w);
    RunIsScan(n, code, w);
  }

  /** Trying the groups in turn is a scan over all encodings in tree order. */
  lemma {:induction false} RunAllIsScan(trees: seq<Node>, decoders: seq<Code>, w: Word)
    requires Roots(trees) && CodesFor(decoders, trees, |trees|) && AllAgree(trees, w)
    ensures AllEncodings(TreeOrders(trees)) && RunAll(decoders, w) == LinearScan(TreeOrders(trees), w)
  {
    if trees != [] {
      TailCodes(decoders, trees);
      RootIsScan(trees[0], decoders[0], w);
      RunAllIsScan(trees[1..], decoders[1..], w);
      ScanAppend(TreeOrder(trees[0]), TreeOrders(trees[1..]), w);
    }
  }

  /** A tree that one of the top-level groups of these encodings may become. */
  ghost predicate GroupTree(n: Node, encs: seq<Encoding>) {
    && n.ignore == {} && WellFormed(n) && Split(n)
    && exists k :: 0 <= k < |FirstFitAll([], ByMask(encs))| && multiset(n.encs) == multiset(FirstFitAll([], ByMask(encs))[k])
  }

  /** Decoders that may be generated for the encodings, with the trees of their groups. */
  ghost predicate Generated(decoders: seq<Code>, trees: seq<Node>, encs: seq<Encoding>) {
    && AllEncodings(encs) && Roots(trees) && CodesFor(decoders, trees, |trees|)
    && multiset(Members(trees)) == multiset(encs)
    && |trees| == |FirstFitAll([], ByMask(encs))|
    && forall k | 0 <= k < |trees| :: GroupTree(trees[k], encs)
  }

  /** A generated decoder is right on every word on whose way each name has one meaning. */
  lemma {:induction false} GeneratedRight(decoders: seq<Code>, trees: seq<Node>, encs: seq<Encoding>, w: Word)
    requires Generated(decoders, trees, encs) && AllAgree(trees, w)
    ensures Right(RunAll(decoders, w), encs, w)
  {
    SamePermutation(Members(trees), encs);
    RunAllIsScan(trees, decoders, w);
    MembersInTreeOrder(trees);
    SamePermutation(TreeOrders(trees), encs);
    ScanSound(TreeOrders(trees), w);
  }

  /** However the encodings are split, each name means one field or overlay within every leaf or case. */
  ghost predicate CanShare(encs: seq<Encoding>) {
    forall n | GroupTree(n, encs) :: Shareable(n)
  }

  /** The decoder is right on all words. */
  ghost predicate IsDecoderFor(decoders: seq<Code>, encs: seq<Encoding>) {
    AllEncodings(encs) && forall w: Word :: Right(RunAll(decoders, w), encs, w)
  }

  lemma {:induction false} SharedRight(decoders: seq<Code>, trees: seq<Node>, encs: seq<Encoding>)
    requires Generated(decoders, trees, encs) && CanShare(encs)
    ensures IsDecoderFor(decoders, encs)
  {
    forall w: Word
      ensures Right(RunAll(decoders, w), encs, w)
    {
      forall k | 0 <= k < |trees|
        ensures OneMeaningIn(trees[k], w)
      {
        OpenRoot(trees[k]);
        ShareableAgrees(trees[k], w);
      }
      GeneratedRight(decoders, trees, encs, w);
    }
  }

  /** On words that at most one encoding matches, the decoder agrees with a scan in the order of definition. */
  lemma {:induction false} ExclusiveIsScan(decoders: seq<Code>, trees: seq<Node>, encs: seq<Encoding>, w: Word)
    requires Generated(decoders, trees, encs) && AllAgree(trees, w) && Exclusive(encs, w)
    ensures RunAll(decoders, w) == LinearScan(encs, w)
  {
    GeneratedRight(decoders, trees, encs, w);
    ScanSound(encs, w);
  }

  // ----- the top-level function -----

  /** The statements of the emitted top-level function: `auto opcode = ...` for each group, returns in between, and
      the final return. */
  datatype TopStatement = Declare(group: nat) | ReturnIfFound | ReturnOpcode

  /** The statements for the groups from the i-th on. */
  function TopFrom(i: nat, n: nat): seq<TopStatement>
    requires i <= n
    decreases n - i
  {
    if i == n then [ReturnOpcode]
    else [Declare(i)] + (if n > 1 then [ReturnIfFound] else []) + TopFrom(i + 1, n)
  }

  /** The whole function; there is none without groups. */
  function TopLevel(n: nat): seq<TopStatement> {
    if n == 0 then [] else TopFrom(0, n)
  }

  /** No variable is declared twice. */
  predicate Compiles(top: seq<TopStatement>) {
    forall j, k | 0 <= j < k < |top| :: !(top[j].Declare? && top[k].Declare?)
  }

  /** What the statements return if every declaration assigns. */
  ghost function RunTop(top: seq<TopStatement>, decoders: seq<Code>, w: Word, opcode: Outcome): Outcome {
    if top == [] then Stuck
    else
      match top[0]
      case Declare(i) => if i < |decoders| then RunTop(top[1..], decoders, w, Run(decoders[i], w)) else Stuck
      case ReturnIfFound => if opcode != NoMatch then opcode else RunTop(top[1..], decoders, w, opcode)
      case ReturnOpcode => opcode
  }

  lemma {:induction false} RunTopFrom(decoders: seq<Code>, w: Word, i: nat, opcode: Outcome)
    requires i < |decoders|
    ensures RunTop(TopFrom(i, |decoders|), decoders, w, opcode) == RunAll(decoders[i..], w)
    decreases |decoders| - i
  {
    var n, result := |decoders|, Run(decoders[i], w);
    var rest := TopFrom(i + 1, n);
    RunStep(decoders, w, i, opcode, rest);
    assert decoders[i..][1..] == decoders[i + 1..];
    if i + 1 < n {
      RunTopFrom(decoders, w, i + 1, result);
    } else {
      assert rest == [ReturnOpcode] && decoders[i + 1..] == [];
    }
  }

  lemma {:induction false} RunStep(decoders: seq<Code>, w: Word, i: nat, opcode: Outcome, rest: seq<TopStatement>)
    requires i < |decoders|
    ensures RunTop([Declare(i)] + [] + rest, decoders, w, opcode) == RunTop(rest, decoders, w, Run(decoders[i], w))
    ensures RunTop([Declare(i)] + [ReturnIfFound] + rest, decoders, w, opcode) ==
            if Run(decoders[i], w) != NoMatch then Run(decoders[i], w) else RunTop(rest, decoders, w, NoMatch)
  {
    assert ([Declare(i)] + [] + rest)[1..] == rest;
    assert ([Declare(i)] + [ReturnIfFound] + rest)[1..] == [ReturnIfFound] + rest && ([ReturnIfFound] + rest)[1..] == rest;
  }

  /** The top-level function tries the groups in turn, and is well formed exactly for one group. */
  lemma {:induction false} TopLevelIff(decoders: seq<Code>, w: Word)
    requires decoders != []
    ensures RunTop(TopFrom(0, |decoders|), decoders, w, Stuck) == RunAll(decoders, w)
    ensures Compiles(TopFrom(0, |decoders|)) <==> |decoders| == 1
  {
    var n := |decoders|;
    RunTopFrom(decoders, w, 0, Stuck);
    assert decoders[0..] == decoders;
    if n > 1 {
      assert TopFrom(0, n)[0] == Declare(0) && TopFrom(0, n)[2] == Declare(1);
    } else {
      assert TopFrom(0, n) == [Declare(0)] + [] + [ReturnOpcode];
    }
  }

  /** Decoders for these trees and their top-level function; folded. */
  ghost predicate Emitted(decoders: seq<Code>, top: seq<TopStatement>, trees: seq<Node>) {
    forall t: Token {:trigger Unfold(t)} :: t == Output && Unfold(t) ==>
      Roots(trees) && CodesFor(decoders, trees, |trees|) && top == TopLevel(|trees|)
  }

  // ----- the encoder -----

  /** Placing operand bits around the value of an encoding without further constraints gives a word it matches. */
  lemma {:induction false} EncodedMatches(e: Encoding, operands: Word)
    requires e.Valid() && e.extracted == [] && e.other == [] && operands !! e.mask
    ensures e.Matches(e.value + operands)
  {
    MasksFit(e.equal);
    assert (e.value + operands) * e.mask == e.value;
    MaskedCompare(e.equal, e.value + operands);
  }

  /** The table of opcode values and widths: of encodings with the same name the first is kept. */
  type OpcodeTable = map<string, (Word, nat)>

  function Opcodes(encs: seq<Encoding>, width: nat, pascal: string -> string, table: OpcodeTable): OpcodeTable {
    if encs == [] then table
    else
      var name := pascal(encs[0].name);
      Opcodes(encs[1..], width, pascal, if name in table then table else table[name := (encs[0].value, width)])
  }

  /** No encoding before the i-th has its name. */
  predicate FirstOfName(encs: seq<Encoding>, pascal: string -> string, i: nat) {
    i < |encs| && forall j | 0 <= j < i :: pascal(encs[j].name) != pascal(encs[i].name)
  }

  lemma {:induction false} OldEntries(encs: seq<Encoding>, width: nat, pascal: string -> string, table: OpcodeTable, name: string)
    requires name in table
    ensures name in Opcodes(encs, width, pascal, table) && Opcodes(encs, width, pascal, table)[name] == table[name]
    decreases encs
  {
    if encs != [] {
      var first := pascal(encs[0].name);
      OldEntries(encs[1..], width, pascal, if first in table then table else table[first := (encs[0].value, width)], name);
    }
  }

  /** A name that is not in the table gets the value of the first encoding of that name. */
  lemma {:induction false} FirstEntry(encs: seq<Encoding>, width: nat, pascal: string -> string, table: OpcodeTable, i: nat)
    requires FirstOfName(encs, pascal, i) && pascal(encs[i].name) !in table
    ensures pascal(encs[i].name) in Opcodes(encs, width, pascal, table)
    ensures Opcodes(encs, width, pascal, table)[pascal(encs[i].name)] == (encs[i].value, width)
    decreases encs
  {
    var first := pascal(encs[0].name);
    var next := if first in table then table else table[first := (encs[0].value, width)];
    if i == 0 {
      OldEntries(encs[1..], width, pascal, next, first);
    } else {
      assert first != pascal(encs[i].name);
      assert forall j | 0 <= j < i :: encs[1..][j] == encs[j + 1];
      FirstEntry(encs[1..], width, pascal, next, i - 1);
    }
  }

  lemma {:induction false} NewEntries(encs: seq<Encoding>, width: nat, pascal: string -> string, table: OpcodeTable, name: string)
    requires name in Opcodes(encs, width, pascal, table) && name !in table
    ensures exists i: nat :: FirstOfName(encs, pascal, i) && pascal(encs[i].name) == name
    decreases encs
  {
    var first := pascal(encs[0].name);
    if first == name {
      assert FirstOfName(encs, pascal, 0);
    } else {
      NewEntries(encs[1..], width, pascal, if first in table then table else table[first := (encs[0].value, width)], name);
      var i: nat :| FirstOfName(encs[1..], pascal, i) && pascal(encs[1..][i].name) == name;
      forall j | 0 <= j < i + 1
        ensures pascal(encs[j].name) != pascal(encs[i + 1].name)
      {
        if j > 0 { assert encs[j] == encs[1..][j - 1]; }
      }
      assert FirstOfName(encs, pascal, i + 1);
    }
  }

  /** Old entries stay; each new one is the value of the first encoding of its name, and every name has one. */
  lemma {:induction false} OpcodesRight(encs: seq<Encoding>, width: nat, pascal: string -> string, table: OpcodeTable)
    ensures forall name | name in table :: name in Opcodes(encs, width, pascal, table) && Opcodes(encs, width, pascal, table)[name] == table[name]
    ensures forall name | name in Opcodes(encs, width, pascal, table) && name !in table ::
              exists i: nat :: FirstOfName(encs, pascal, i) && pascal(encs[i].name) == name
    ensures forall i: nat | FirstOfName(encs, pascal, i) && pascal(encs[i].name) !in table ::
              && pascal(encs[i].name) in Opcodes(encs, width, pascal, table)
              && Opcodes(encs, width, pascal, table)[pascal(encs[i].name)] == (encs[i].value, width)
  {
    forall name | name in table { OldEntries(encs, width, pascal, table, name); }
    forall name | name in Opcodes(encs, width, pascal, table) && name !in table
      ensures exists i: nat :: FirstOfName(encs, pascal, i) && pascal(encs[i].name) == name
    {
      NewEntries(encs, width, pascal, table, name);
    }
    forall i: nat | FirstOfName(encs, pascal, i) && pascal(encs[i].name) !in table { FirstEntry(encs, width, pascal, table, i); }
  }

  lemma {:induction false} EncodedRight(decoders: seq<Code>, trees: seq<Node>, encs: seq<Encoding>, e: Encoding, operands: Word)
    requires Generated(decoders, trees, encs) && e in encs
    requires e.extracted == [] && e.other == [] && operands !! e.mask
    requires AllAgree(trees, e.value + operands) && Exclusive(encs, e.value + operands)
    ensures RunAll(decoders, e.value + operands) == Found(e, Chosen(e.specials, e.value + operands))
  {
    EncodedMatches(e, operands);
    GeneratedRight(decoders, trees, encs, e.value + operands);
  }

  /** Encoder and decoder agree: a word made from the table entry of a name decodes to the first encoding of that
      name, or to the first specialization of it that the operands meet. */
  lemma {:induction false} EncodeThenDecode(decoders: seq<Code>, trees: seq<Node>, encs: seq<Encoding>, width: nat, pascal: string -> string, i: nat, entry: (Word, nat), operands: Word)
    requires FirstOfName(encs, pascal, i) && pascal(encs[i].name) in Opcodes(encs, width, pascal, map[])
    requires entry == Opcodes(encs, width, pascal, map[])[pascal(encs[i].name)]
    requires AllEncodings(encs) && encs[i].Valid()
    requires encs[i].extracted == [] && encs[i].other == [] && operands !! encs[i].mask
    requires Generated(decoders, trees, encs)
    requires AllAgree(trees, entry.0 + operands) && Exclusive(encs, entry.0 + operands)
    ensures entry.1 == width && RunAll(decoders, entry.0 + operands) == Found(encs[i], Chosen(encs[i].specials, entry.0 + operands))
  {
    FirstEntry(encs, width, pascal, map[], i);
    EncodedRight(decoders, trees, encs, encs[i], operands);
  }

  // ----- the group of instructions -----

  /** Top-level groups while encodings are added: distinct objects without parent that hold the given encodings. */
  ghost predicate Hold(groups: seq<EncodingGroup>, contents: seq<seq<Encoding>>)
    reads groups
  {
    && |groups| == |contents|
    && (forall j, k | 0 <= j < k < |groups| :: groups[j] != groups[k])
    && (forall k | 0 <= k < |groups| ::
          && groups[k].parent == null && groups[k].ignore == {}
          && groups[k].Collecting() && groups[k].encodingVec == contents[k])
  }

  lemma {:induction false} FitsHere(contents: seq<seq<Encoding>>, e: Encoding, i: nat)
    requires i < |contents| && Accepts(contents[i], e)
    requires forall j | 0 <= j < i :: !Accepts(contents[j], e)
    ensures FirstFit(contents, e) == contents[i := contents[i] + [e]]
  {
    if i > 0 {
      assert contents[1..][i - 1] == contents[i];
      FitsHere(contents[1..], e, i - 1);
      assert [contents[0]] + contents[1..][i - 1 := contents[i] + [e]] == contents[i := contents[i] + [e]];
    } else {
      assert [contents[0] + [e]] + contents[1..] == contents[0 := contents[0] + [e]];
    }
  }

  lemma {:induction false} FitsNowhere(contents: seq<seq<Encoding>>, e: Encoding)
    requires forall j | 0 <= j < |contents| :: !Accepts(contents[j], e)
    ensures FirstFit(contents, e) == contents + [[e]]
  {
    if contents != [] {
      FitsNowhere(contents[1..], e);
      assert [contents[0]] + (contents[1..] + [[e]]) == contents + [[e]];
    }
  }

  /** The trees of finished top-level groups. */
  ghost predicate Built(groups: seq<EncodingGroup>)
    reads groups, set k, o | 0 <= k < |groups| && o in groups[k].Repr :: o
  {
    forall k | 0 <= k < |groups| :: groups[k].ignore == {} && groups[k].Finished() && SplitTree(groups[k].Tree())
  }

  ghost function TreesOf(groups: seq<EncodingGroup>): (r: seq<Node>)
    reads groups
    ensures |r| == |groups| && forall k | 0 <= k < |r| :: r[k] == groups[k].Tree()
  {
    if groups == [] then [] else [groups[0].Tree()] + TreesOf(groups[1..])
  }

  lemma {:induction false} TreesAppend(a: seq<EncodingGroup>, b: seq<EncodingGroup>)
    ensures TreesOf(a + b) == TreesOf(a) + TreesOf(b)
  {
  }

  lemma {:induction false} AppendAssociates<T>(a: seq<T>, b: seq<T>, c: seq<T>)
    ensures (a + b) + c == a + (b + c)
  {
  }

  lemma {:induction false} MembersAppend(a: seq<Node>, b: seq<Node>)
    ensures Members(a + b) == Members(a) + Members(b)
  {
    if a == [] {
      assert a + b == b;
    } else {
      MembersAppend(a[1..], b);
      assert (a + b)[1..] == a[1..] + b;
      AppendAssociates(a[0].encs, Members(a[1..]), Members(b));
    }
  }

  /** The encodings of some groups, in the order of the groups. */
  ghost function EncodingsOf(groups: seq<EncodingGroup>): seq<Encoding>
    reads groups
  {
    Members(TreesOf(groups))
  }

  lemma {:induction false} EncodingsAppend(a: seq<EncodingGroup>, b: seq<EncodingGroup>)
    ensures EncodingsOf(a + b) == EncodingsOf(a) + EncodingsOf(b)
  {
    TreesAppend(a, b);
    MembersAppend(TreesOf(a), TreesOf(b));
  }

  lemma {:induction false} EncodingsSingle(g: EncodingGroup)
    ensures EncodingsOf([g]) == g.encodingVec
  {
    var trees := TreesOf([g]);
    assert trees == [g.Tree()] && trees[1..] == [];
    assert Members(trees) == g.Tree().encs + [];
  }

  lemma {:induction false} InsertedGroup(a: seq<EncodingGroup>, g: EncodingGroup, b: seq<EncodingGroup>)
    ensures multiset(EncodingsOf(a + [g] + b)) == multiset(EncodingsOf(a + b)) + multiset(g.encodingVec)
  {
    EncodingsAppend(a, [g]);
    EncodingsAppend(a + [g], b);
    EncodingsAppend(a, b);
    EncodingsSingle(g);
  }

  /** Whether the first group comes before the second in the order by which top-level groups are sorted. */
  method InstructionGroupLess(lhs: EncodingGroup, rhs: EncodingGroup) returns (less: bool)
    requires lhs.encodingVec != [] && rhs.encodingVec != []
    ensures less <==> Index(lhs.encodingVec[0].value, lhs.constant) < Index(rhs.encodingVec[0].value, lhs.constant)
  {
    var recipe := GetExtractionRecipe(lhs.constant);
    var left := ExtractValue(lhs.encodingVec[0].value, recipe);
    var right := ExtractValue(rhs.encodingVec[0].value, recipe);
    less := Num(left, 64) < Num(right, 64);
  }

  /** The place behind the last group that the given one does not come before. */
  method FindPlace(sorted: seq<EncodingGroup>, g: EncodingGroup) returns (place: nat)
    requires g.encodingVec != [] && forall h | h in sorted :: h.encodingVec != []
    ensures place <= |sorted|
  {
    place := |sorted|;
    while place > 0
      invariant place <= |sorted|
    {
      var less := InstructionGroupLess(g, sorted[place - 1]);
      if !less { break; }
      place := place - 1;
    }
  }

  lemma {:induction false} SortStep(groups: seq<EncodingGroup>, i: nat, sorted: seq<EncodingGroup>, place: nat)
    requires i < |groups| && place <= |sorted|
    requires multiset(sorted) == multiset(groups[..i]) && multiset(EncodingsOf(sorted)) == multiset(EncodingsOf(groups[..i]))
    ensures var longer := sorted[..place] + [groups[i]] + sorted[place..];
            && multiset(longer) == multiset(groups[..i + 1])
            && multiset(EncodingsOf(longer)) == multiset(EncodingsOf(groups[..i + 1]))
  {
    var g := groups[i];
    InsertedGroup(sorted[..place], g, sorted[place..]);
    InsertedGroup(groups[..i], g, []);
    assert sorted[..place] + sorted[place..] == sorted;
    assert groups[..i] + [] == groups[..i] && groups[..i] + [g] + [] == groups[..i + 1];
  }

  method SortNext(groups: seq<EncodingGroup>, i: nat, sorted: seq<EncodingGroup>) returns (longer: seq<EncodingGroup>)
    requires i < |groups| && forall g | g in groups :: g.encodingVec != []
    requires multiset(sorted) == multiset(groups[..i]) && multiset(EncodingsOf(sorted)) == multiset(EncodingsOf(groups[..i]))
    ensures multiset(longer) == multiset(groups[..i + 1])
    ensures multiset(EncodingsOf(longer)) == multiset(EncodingsOf(groups[..i + 1]))
  {
    MembersOfPrefix(groups, i, sorted);
    var place := FindPlace(sorted, groups[i]);
    SortStep(groups, i, sorted, place);
    longer := sorted[..place] + [groups[i]] + sorted[place..];
  }

  /** The comparison is no order when groups have different constant bits; only that the result is a
      permutation is promised, and only that is used. */
  method SortGroups(groups: seq<EncodingGroup>) returns (sorted: seq<EncodingGroup>)
    requires forall g | g in groups :: g.encodingVec != []
    ensures multiset(sorted) == multiset(groups)
    ensures multiset(EncodingsOf(sorted)) == multiset(EncodingsOf(groups))
  {
    sorted := [];
    for i := 0 to |groups|
      invariant multiset(sorted) == multiset(groups[..i])
      invariant multiset(EncodingsOf(sorted)) == multiset(EncodingsOf(groups[..i]))
    {
      sorted := SortNext(groups, i, sorted);
    }
    assert groups[..|groups|] == groups;
  }

  lemma {:induction false} MembersOfPrefix(groups: seq<EncodingGroup>, i: nat, sorted: seq<EncodingGroup>)
    requires i < |groups| && multiset(sorted) == multiset(groups[..i])
    ensures forall h | h in sorted :: h in groups
  {
    forall h | h in sorted
      ensures h in groups
    {
      assert h in multiset(groups[..i]);
    }
  }

  lemma {:induction false} BuiltPermutation(a: seq<EncodingGroup>, b: seq<EncodingGroup>)
    requires Built(a) && multiset(a) == multiset(b)
    ensures Built(b)
  {
    forall k | 0 <= k < |b|
      ensures b[k] in a
    {
      assert b[k] in multiset(b);
    }
  }

  lemma {:induction false} BuiltNonEmpty(groups: seq<EncodingGroup>)
    requires Built(groups)
    ensures forall g | g in groups :: g.encodingVec != []
  {
    forall g | g in groups
      ensures g.encodingVec != []
    {
      assert SplitTree(g.Tree());
      OpenTree(g.Tree());
    }
  }

  lemma {:induction false} RootsPlain(trees: seq<Node>, k: nat)
    requires k < |trees| && Plain(Members(trees))
    ensures Plain(trees[k].encs)
  {
    forall e | e in trees[k].encs ensures e in Members(trees) { RootMember(trees, k, e); }
  }

  lemma {:induction false} BuiltRoots(groups: seq<EncodingGroup>)
    requires Built(groups) && Plain(EncodingsOf(groups))
    ensures Roots(TreesOf(groups))
  {
    var trees := TreesOf(groups);
    forall k | 0 <= k < |trees|
      ensures IsRoot(trees[k])
    {
      RootsPlain(trees, k);
      assert SplitTree(groups[k].Tree());
      OpenTree(trees[k]);
    }
  }

  method EmitGroup(group: EncodingGroup) returns (decoder: Code)
    requires group.Finished() && SplitTree(group.Tree()) && Plain(group.encodingVec)
    ensures CodeFor(decoder, group.Tree())
  {
    OpenTree(group.Tree());
    decoder := group.EmitDecoders();
  }

  /** Emits the decoders of the groups and the statements of the top-level function. */
  method EmitGroups(groups: seq<EncodingGroup>) returns (decoders: seq<Code>, top: seq<TopStatement>)
    requires Built(groups) && Plain(EncodingsOf(groups))
    ensures CodesFor(decoders, TreesOf(groups), |groups|) && top == TopLevel(|groups|)
  {
    ghost var trees := TreesOf(groups);
    decoders, top := [], [];
    for i := 0 to |groups|
      invariant CodesFor(decoders, trees, i)
      invariant top + TopFrom(i, |groups|) == TopFrom(0, |groups|)
    {
      RootsPlain(trees, i);
      var decoder := EmitGroup(groups[i]);
      OneMoreCode(decoders, trees, i, decoder);
      decoders := decoders + [decoder];
      var more := [Declare(i)] + if |groups| > 1 then [ReturnIfFound] else [];
      AppendAssociates(top, more, TopFrom(i + 1, |groups|));
      top := top + more;
    }
    top := if groups == [] then [] else top + [ReturnOpcode];
  }

  method SortAndEmit(groups: seq<EncodingGroup>) returns (sorted: seq<EncodingGroup>, decoders: seq<Code>, top: seq<TopStatement>)
    requires Built(groups) && Plain(EncodingsOf(groups))
    ensures multiset(sorted) == multiset(groups)
    ensures multiset(EncodingsOf(sorted)) == multiset(EncodingsOf(groups))
    ensures Emitted(decoders, top, TreesOf(sorted))
  {
    BuiltNonEmpty(groups);
    sorted := SortGroups(groups);
    BuiltPermutation(groups, sorted);
    SamePermutation(EncodingsOf(groups), EncodingsOf(sorted));
    BuiltRoots(sorted);
    decoders, top := EmitGroups(sorted);
  }

  /** The groups hold what first fit by mask puts into them. */
  ghost predicate FirstFitContents(groups: seq<EncodingGroup>, encs: seq<Encoding>)
    reads groups
  {
    var contents := FirstFitAll([], ByMask(encs));
    |groups| == |contents| && forall k | 0 <= k < |groups| :: multiset(groups[k].encodingVec) == multiset(contents[k])
  }

  class InstructionGroup {
    const width: nat
    var encodingVec: seq<Encoding>
    var encodingMap: seq<Encoding>
    var encodingGroupVec: seq<EncodingGroup>

    constructor (width: nat)
      ensures this.width == width && encodingVec == [] && encodingMap == [] && encodingGroupVec == []
    {
      this.width := width;
      encodingVec, encodingMap, encodingGroupVec := [], [], [];
    }

    method AddInstructionEncoding(enc: Encoding)
      modifies `encodingVec
      ensures encodingVec == old(encodingVec) + [enc]
    {
      encodingVec := encodingVec + [enc];
    }

    /** The first group that takes the encoding. */
    method FindGroup(enc: Encoding, ghost contents: seq<seq<Encoding>>) returns (i: nat)
      requires Hold(encodingGroupVec, contents)
      ensures i <= |contents| && forall j | 0 <= j < i :: !Accepts(contents[j], enc)
      ensures i < |contents| ==> Accepts(contents[i], enc)
    {
      i := 0;
      while i < |encodingGroupVec|
        invariant i <= |encodingGroupVec|
        invariant forall j | 0 <= j < i :: !Accepts(contents[j], enc)
      {
        var can := encodingGroupVec[i].CanAddEncoding(enc);
        if can { return; }
        i := i + 1;
      }
    }

    method AddTo(i: nat, enc: Encoding, ghost contents: seq<seq<Encoding>>)
      requires Hold(encodingGroupVec, contents) && i < |contents|
      modifies encodingGroupVec
      ensures Hold(encodingGroupVec, contents[i := contents[i] + [enc]])
    {
      encodingGroupVec[i].AddEncoding(enc);
    }

    method AddNew(enc: Encoding, ghost contents: seq<seq<Encoding>>)
      requires Hold(encodingGroupVec, contents)
      modifies `encodingGroupVec
      ensures Hold(encodingGroupVec, contents + [[enc]])
      ensures exists g :: fresh(g) && encodingGroupVec == old(encodingGroupVec) + [g]
    {
      var group := new EncodingGroup(null, {});
      group.AddEncoding(enc);
      encodingGroupVec := encodingGroupVec + [group];
    }

    /** Adds the encoding to the first group that takes it, or to a new one. */
    method Place(enc: Encoding, ghost contents: seq<seq<Encoding>>)
      requires Hold(encodingGroupVec, contents)
      modifies `encodingGroupVec, encodingGroupVec
      ensures Hold(encodingGroupVec, FirstFit(contents, enc))
      ensures forall k | 0 <= k < |encodingGroupVec| :: encodingGroupVec[k] in old(encodingGroupVec) || fresh(encodingGroupVec[k])
    {
      var i := FindGroup(enc, contents);
      if i < |encodingGroupVec| {
        FitsHere(contents, enc, i);
        AddTo(i, enc, contents);
      } else {
        FitsNowhere(contents, enc);
        AddNew(enc, contents);
      }
    }

    /** The encodings ordered by mask, as the multimap keeps them. */
    method FillMap()
      requires encodingMap == []
      modifies `encodingMap
      ensures encodingMap == ByMask(encodingVec)
    {
      for i := 0 to |encodingVec|
        invariant encodingMap == ByMask(encodingVec[..i])
      {
        assert encodingVec[..i + 1][..i] == encodingVec[..i];
        encodingMap := InsertByMask(encodingMap, encodingVec[i]);
      }
      assert encodingVec[..|encodingVec|] == encodingVec;
    }

    /** Distributes the encodings over top-level groups, starting with one empty group. */
    method MakeGroups()
      requires encodingMap != [] && encodingGroupVec == []
      modifies `encodingGroupVec
      ensures Hold(encodingGroupVec, FirstFitAll([], encodingMap)) && fresh(encodingGroupVec)
    {
      var group := new EncodingGroup(null, {});
      encodingGroupVec := [group];
      ghost var contents := [[]];
      assert encodingMap[0..] == encodingMap;
      StartEmpty(encodingMap);
      for i := 0 to |encodingMap|
        invariant Hold(encodingGroupVec, contents)
        invariant fresh(encodingGroupVec)
        invariant FirstFitAll(contents, encodingMap[i..]) == FirstFitAll([], encodingMap)
      {
        assert encodingMap[i..][0] == encodingMap[i] && encodingMap[i..][1..] == encodingMap[i + 1..];
        Place(encodingMap[i], contents);
        contents := FirstFit(contents, encodingMap[i]);
      }
    }

    /** The first i groups are split, the others still hold their encodings and are not part of the split ones. */
    ghost predicate SplitBefore(i: nat, contents: seq<seq<Encoding>>)
      reads this, encodingGroupVec, set k, o | 0 <= k < |encodingGroupVec| && o in encodingGroupVec[k].Repr :: o
    {
      && i <= |encodingGroupVec| == |contents|
      && Built(encodingGroupVec[..i])
      && (forall k | 0 <= k < i :: multiset(encodingGroupVec[k].encodingVec) == multiset(contents[k]))
      && Hold(encodingGroupVec[i..], contents[i..])
      && (forall j, k | 0 <= j < i <= k < |encodingGroupVec| :: encodingGroupVec[k] !in encodingGroupVec[j].Repr)
    }

    /** Splits the next top-level group. */
    method SplitNext(i: nat, ghost contents: seq<seq<Encoding>>)
      requires SplitBefore(i, contents) && i < |contents| && contents[i] != []
      modifies encodingGroupVec[i]
      ensures SplitBefore(i + 1, contents)
    {
      var group := encodingGroupVec[i];
      assert encodingGroupVec[i..][0] == group && contents[i..][0] == contents[i];
      forall k | i < k < |encodingGroupVec|
        ensures encodingGroupVec[i..][k - i] == encodingGroupVec[k] && contents[i..][k - i] == contents[k]
      {
      }
      group.AddSubGroups();
      assert Built(encodingGroupVec[..i + 1]) by {
        assert encodingGroupVec[..i + 1] == encodingGroupVec[..i] + [group];
      }
    }

    /** Splits every top-level group. */
    method SplitGroups(ghost contents: seq<seq<Encoding>>)
      requires Hold(encodingGroupVec, contents) && forall k | 0 <= k < |contents| :: contents[k] != []
      modifies encodingGroupVec
      ensures Built(encodingGroupVec)
      ensures |encodingGroupVec| == |contents| && forall k | 0 <= k < |contents| :: multiset(encodingGroupVec[k].encodingVec) == multiset(contents[k])
    {
      assert encodingGroupVec[0..] == encodingGroupVec && contents[0..] == contents;
      for i := 0 to |encodingGroupVec|
        invariant SplitBefore(i, contents)
      {
        SplitNext(i, contents);
      }
      assert encodingGroupVec[..|encodingGroupVec|] == encodingGroupVec;
    }

    /** The groups made and split by first fit. */
    method DistributeAndSplit() returns (ghost contents: seq<seq<Encoding>>)
      requires encodingVec != [] && encodingMap == [] && encodingGroupVec == []
      modifies `encodingMap, `encodingGroupVec
      ensures Built(encodingGroupVec) && fresh(encodingGroupVec)
      ensures contents == FirstFitAll([], ByMask(encodingVec)) && GoodGroups(contents)
      ensures multiset(Flatten(contents)) == multiset(encodingVec)
      ensures FirstFitContents(encodingGroupVec, encodingVec)
    {
      FillMap();
      contents := Contents(encodingVec);
      MakeGroups();
      SplitGroups(contents);
    }

    /** Distributes the encodings over top-level groups and splits these. */
    method ProcessEncodings()
      requires encodingMap == [] && encodingGroupVec == []
      modifies this
      ensures encodingVec == old(encodingVec)
      ensures Built(encodingGroupVec) && fresh(encodingGroupVec)
      ensures multiset(EncodingsOf(encodingGroupVec)) == multiset(encodingVec)
      ensures forall k | 0 <= k < |encodingGroupVec| :: Coherent(encodingGroupVec[k].encodingVec)
      ensures FirstFitContents(encodingGroupVec, encodingVec)
    {
      if encodingVec == [] {
        return;
      }
      ghost var contents := DistributeAndSplit();
      SplitResult(encodingGroupVec, contents);
    }

    /** Reports duplicates in all groups. */
    method CheckEncodings() returns (errors: seq<(Encoding, Encoding)>)
      requires forall k | 0 <= k < |encodingGroupVec| :: encodingGroupVec[k].Finished() && encodingGroupVec[k].NarrowTables()
      ensures errors != [] <==> exists k :: 0 <= k < |encodingGroupVec| && encodingGroupVec[k].HasDuplicate()
    {
      errors := [];
      for i := 0 to |encodingGroupVec|
        invariant errors != [] <==> exists k :: 0 <= k < i && encodingGroupVec[k].HasDuplicate()
      {
        var more := encodingGroupVec[i].CheckEncodings();
        errors := errors + more;
      }
    }

    /** The decoders of the top-level groups, in the order in which they are tried, and the top-level function, of
        which there is none without groups. */
    method EmitDecoderCode() returns (decoders: seq<Code>, top: seq<TopStatement>)
      requires Built(encodingGroupVec) && Plain(EncodingsOf(encodingGroupVec))
      modifies `encodingGroupVec
      ensures multiset(encodingGroupVec) == old(multiset(encodingGroupVec))
      ensures multiset(EncodingsOf(encodingGroupVec)) == old(multiset(EncodingsOf(encodingGroupVec)))
      ensures Emitted(decoders, top, TreesOf(encodingGroupVec))
    {
      if encodingGroupVec == [] {
        return [], [];
      }
      var sorted;
      sorted, decoders, top := SortAndEmit(encodingGroupVec);
      ghost var trees := TreesOf(sorted);
      encodingGroupVec := sorted;
      assert TreesOf(encodingGroupVec) == trees;
    }

    /** The table from which the encoder takes opcode values. */
    method GetInstructionEncodings(pascal: string -> string, table: OpcodeTable) returns (encodings: OpcodeTable)
      ensures encodings == Opcodes(encodingVec, width, pascal, table)
    {
      encodings := table;
      assert encodingVec[0..] == encodingVec;
      for i := 0 to |encodingVec|
        invariant Opcodes(encodingVec[i..], width, pascal, encodings) == Opcodes(encodingVec, width, pascal, table)
      {
        var enc := encodingVec[i];
        assert encodingVec[i..][0] == enc && encodingVec[i..][1..] == encodingVec[i + 1..];
        if pascal(enc.name) !in encodings {
          encodings := encodings[pascal(enc.name) := (enc.value, width)];
        }
      }
    }
  }

  lemma {:induction false} SameLength(a: seq<EncodingGroup>, b: seq<EncodingGroup>)
    requires multiset(a) == multiset(b)
    ensures |a| == |b|
  {
    assert |multiset(a)| == |multiset(b)|;
  }

  /** The encodings of a top-level group: there is one, and if there are more they share a significant bit. */
  ghost predicate Coherent(encs: seq<Encoding>) {
    encs != [] && (|encs| >= 2 ==> Common(encs) != {})
  }

  /** The contents of the top-level groups. */
  lemma {:induction false} Contents(encs: seq<Encoding>) returns (contents: seq<seq<Encoding>>)
    requires encs != []
    ensures ByMask(encs) != [] && contents == FirstFitAll([], ByMask(encs))
    ensures GoodGroups(contents) && multiset(Flatten(contents)) == multiset(encs)
  {
    ByMaskKeepsAll(encs);
    assert encs[0] in multiset(ByMask(encs));
    contents := FirstFitAll([], ByMask(encs));
    FirstFitAllGood([], ByMask(encs));
  }

  lemma {:induction false} Distributed(trees: seq<Node>, contents: seq<seq<Encoding>>)
    requires |trees| == |contents| && forall k | 0 <= k < |trees| :: multiset(trees[k].encs) == multiset(contents[k])
    requires GoodGroups(contents)
    ensures multiset(Members(trees)) == multiset(Flatten(contents))
    ensures forall k | 0 <= k < |trees| :: Coherent(trees[k].encs)
  {
    if trees != [] {
      assert GoodGroups(contents[1..]);
      Distributed(trees[1..], contents[1..]);
      SamePermutation(trees[0].encs, contents[0]);
      assert forall k | 1 <= k < |trees| :: trees[k] == trees[1..][k - 1];
    }
  }

  lemma {:induction false} SplitResult(groups: seq<EncodingGroup>, contents: seq<seq<Encoding>>)
    requires |groups| == |contents| && forall k | 0 <= k < |groups| :: multiset(groups[k].encodingVec) == multiset(contents[k])
    requires GoodGroups(contents)
    ensures multiset(EncodingsOf(groups)) == multiset(Flatten(contents))
    ensures forall k | 0 <= k < |groups| :: Coherent(groups[k].encodingVec)
  {
    Distributed(TreesOf(groups), contents);
    forall k | 0 <= k < |groups| ensures Coherent(groups[k].encodingVec) { assert Coherent(TreesOf(groups)[k].encs); }
  }

  lemma {:induction false} BuiltPlain(groups: seq<EncodingGroup>)
    requires Built(groups) && Plain(EncodingsOf(groups))
    ensures forall k | 0 <= k < |groups| :: groups[k].NarrowTables() && !groups[k].HasDuplicate()
  {
    forall k | 0 <= k < |groups|
      ensures groups[k].NarrowTables() && !groups[k].HasDuplicate()
    {
      RootsPlain(TreesOf(groups), k);
      assert SplitTree(groups[k].Tree());
      OpenTree(groups[k].Tree());
      groups[k].PlainHasNoTables();
    }
  }

  /** The checks made on a list of encodings: none without specializations is ever reported. */
  method CheckAll(encodings: seq<Encoding>, width: nat) returns (errors: seq<(Encoding, Encoding)>)
    requires Plain(encodings)
    ensures errors == []
  {
    var group := GroupOf(encodings, width);
    group.ProcessEncodings();
    SamePermutation(EncodingsOf(group.encodingGroupVec), encodings);
    BuiltPlain(group.encodingGroupVec);
    errors := group.CheckEncodings();
  }

  /** Two encodings that match the same words are not reported. */
  method DuplicatesUnreported(op: Constraint, width: nat, w: Word) returns (e: Encoding, f: Encoding, errors: seq<(Encoding, Encoding)>)
    requires IsMasked(op) && op.Holds(w)
    ensures AllEncodings([e, f]) && e.name != f.name && e.mask == f.mask && e.value == f.value
    ensures e.Valid() && f.Valid() && e.Matches(w) && f.Matches(w)
    ensures errors == []
  {
    e, f := OpcodeAnd("first", op, []), OpcodeAnd("second", op, []);
    OpcodeMatches("first", op, [], w);
    OpcodeMatches("second", op, [], w);
    errors := CheckAll([e, f], width);
  }

  /** An instruction group with the given encodings. */
  method GroupOf(encodings: seq<Encoding>, width: nat) returns (group: InstructionGroup)
    ensures fresh(group) && group.width == width
    ensures group.encodingVec == encodings && group.encodingMap == [] && group.encodingGroupVec == []
  {
    group := new InstructionGroup(width);
    for i := 0 to |encodings|
      invariant group.encodingVec == encodings[..i] && group.encodingMap == [] && group.encodingGroupVec == []
    {
      group.AddInstructionEncoding(encodings[i]);
      assert encodings[..i + 1] == encodings[..i] + [encodings[i]];
    }
    assert encodings[..|encodings|] == encodings;
  }

  /** The groups have become trees of the top-level groups of these encodings. */
  ghost predicate AllFit(groups: seq<EncodingGroup>, encs: seq<Encoding>)
    reads groups
  {
    |groups| == |FirstFitAll([], ByMask(encs))| && forall k | 0 <= k < |groups| :: GroupTree(groups[k].Tree(), encs)
  }

  lemma {:induction false} BuiltFit(groups: seq<EncodingGroup>, encs: seq<Encoding>)
    requires Built(groups) && FirstFitContents(groups, encs)
    ensures AllFit(groups, encs)
  {
    forall k | 0 <= k < |groups|
      ensures GroupTree(groups[k].Tree(), encs)
    {
      assert multiset(groups[k].encodingVec) == multiset(FirstFitAll([], ByMask(encs))[k]);
      assert SplitTree(groups[k].Tree());
      OpenTree(groups[k].Tree());
    }
  }

  lemma {:induction false} GroupTrees(groups: seq<EncodingGroup>, sorted: seq<EncodingGroup>, encs: seq<Encoding>)
    requires AllFit(groups, encs) && multiset(sorted) == multiset(groups)
    ensures |TreesOf(sorted)| == |FirstFitAll([], ByMask(encs))|
    ensures forall k | 0 <= k < |sorted| :: GroupTree(TreesOf(sorted)[k], encs)
  {
    SameLength(groups, sorted);
    forall k | 0 <= k < |sorted|
      ensures GroupTree(TreesOf(sorted)[k], encs)
    {
      assert sorted[k] in multiset(sorted);
      var j :| 0 <= j < |groups| && groups[j] == sorted[k];
      assert GroupTree(groups[j].Tree(), encs);
    }
  }

  method EmitAll(encodings: seq<Encoding>, width: nat) returns (decoders: seq<Code>, top: seq<TopStatement>, ghost trees: seq<Node>)
    requires Plain(encodings)
    ensures Generated(decoders, trees, encodings) && top == TopLevel(|trees|)
  {
    var group := GroupOf(encodings, width);
    group.ProcessEncodings();
    SamePermutation(EncodingsOf(group.encodingGroupVec), encodings);
    ghost var groups := group.encodingGroupVec;
    BuiltFit(groups, encodings);
    decoders, top := group.EmitDecoderCode();
    trees := TreesOf(group.encodingGroupVec);
    assert Unfold(Output);
    GroupTrees(groups, group.encodingGroupVec, encodings);
  }

  /** The decoder generated for encodings without specializations: right on every word on whose way each name has
      one meaning, so on all words if the encodings can share names. The top-level function is well formed exactly
      if there is at most one encoding or a significant bit common to all, and the braces of the decoders match exactly
      if every encoding with specializations keeps a condition where it is tested. */
  method Generate(encodings: seq<Encoding>, width: nat) returns (decoders: seq<Code>, top: seq<TopStatement>, ghost trees: seq<Node>)
    requires Plain(encodings)
    ensures Generated(decoders, trees, encodings)
    ensures forall w: Word | AllAgree(trees, w) :: Right(RunAll(decoders, w), encodings, w)
    ensures CanShare(encodings) ==> IsDecoderFor(decoders, encodings)
    ensures forall w: Word :: encodings != [] ==> RunTop(top, decoders, w, Stuck) == RunAll(decoders, w)
    ensures Compiles(top) <==> |encodings| <= 1 || Common(encodings) != {}
    ensures (forall k | 0 <= k < |decoders| :: ArmsBalanced(decoders[k])) <==> forall k | 0 <= k < |trees| :: TreeKeeps(trees[k])
  {
    decoders, top, trees := EmitAll(encodings, width);
    GeneratedFacts(decoders, trees, encodings, top);
  }

  lemma {:induction false} GeneratedFacts(decoders: seq<Code>, trees: seq<Node>, encs: seq<Encoding>, top: seq<TopStatement>)
    requires Generated(decoders, trees, encs) && top == TopLevel(|trees|)
    ensures forall w: Word | AllAgree(trees, w) :: Right(RunAll(decoders, w), encs, w)
    ensures CanShare(encs) ==> IsDecoderFor(decoders, encs)
    ensures forall w: Word :: encs != [] ==> RunTop(top, decoders, w, Stuck) == RunAll(decoders, w)
    ensures Compiles(top) <==> |encs| <= 1 || Common(encs) != {}
    ensures (forall k | 0 <= k < |decoders| :: ArmsBalanced(decoders[k])) <==> forall k | 0 <= k < |trees| :: TreeKeeps(trees[k])
  {
    AllBalancedIff(decoders, trees);
    forall w: Word | AllAgree(trees, w) ensures Right(RunAll(decoders, w), encs, w) { GeneratedRight(decoders, trees, encs, w); }
    if CanShare(encs) { SharedRight(decoders, trees, encs); }
    OneGroupIff(encs);
    if encs != [] { assert encs[0] in multiset(Members(trees)); }
    forall w: Word | trees != []
      ensures RunTop(top, decoders, w, Stuck) == RunAll(decoders, w)
      ensures Compiles(top) <==> |trees| == 1
    {
      TopLevelIff(decoders, w);
    }
    if trees != [] { TopLevelIff(decoders, {}); }
  }

  /** The encodings are those of the objects. */
  ghost predicate FinishedFrom(encodings: seq<Encoding>, objects: seq<InstructionEncoding>)
    reads objects
  {
    |encodings| == |objects| && Plain(encodings) && forall i | 0 <= i < |objects| :: objects[i].Valid() && objects[i].IsFinished(encodings[i])
  }

  method FinishAll(objects: seq<InstructionEncoding>) returns (encodings: seq<Encoding>)
    requires forall i | 0 <= i < |objects| :: objects[i].Valid() && Agree(objects[i].equalConstraints)
    modifies objects`maskSet, objects`mask, objects`value
    ensures FinishedFrom(encodings, objects)
  {
    encodings := [];
    for i := 0 to |objects|
      invariant forall k | 0 <= k < |objects| :: objects[k].Valid()
      invariant |encodings| == i && Plain(encodings)
      invariant forall k | 0 <= k < i :: objects[k].IsFinished(encodings[k])
    {
      var e := objects[i].Finish();
      encodings := encodings + [e];
    }
  }

  /** The first answer names an object all of whose constraints hold, if there is one. */
  ghost predicate Answers(outcome: Outcome, encodings: seq<Encoding>, objects: seq<InstructionEncoding>, w: Word)
    requires FinishedFrom(encodings, objects)
    reads objects
  {
    match outcome
    case NoMatch => forall i | 0 <= i < |objects| :: !objects[i].Satisfied(w)
    case Found(e, special) => special == None && exists i :: 0 <= i < |objects| && e == encodings[i] && objects[i].Satisfied(w)
    case Stuck => false
  }

  lemma {:induction false} RightAnswers(outcome: Outcome, encodings: seq<Encoding>, objects: seq<InstructionEncoding>, w: Word)
    requires FinishedFrom(encodings, objects) && Right(outcome, encodings, w)
    ensures Answers(outcome, encodings, objects, w)
  {
    forall i | 0 <= i < |objects| ensures encodings[i].Matches(w) <==> objects[i].Satisfied(w) { assert objects[i].IsFinished(encodings[i]); }
    if outcome.Found? { var i :| 0 <= i < |encodings| && encodings[i] == outcome.encoding; }
  }

  /** The decoder generated from encodings to which constraints have been added, if the masked constraints of each agree. */
  method GenerateFrom(objects: seq<InstructionEncoding>, width: nat)
      returns (encodings: seq<Encoding>, decoders: seq<Code>, top: seq<TopStatement>, ghost trees: seq<Node>)
    requires forall i | 0 <= i < |objects| :: objects[i].Valid() && Agree(objects[i].equalConstraints)
    modifies objects`maskSet, objects`mask, objects`value
    ensures FinishedFrom(encodings, objects) && Generated(decoders, trees, encodings)
    ensures forall w: Word | AllAgree(trees, w) :: Answers(RunAll(decoders, w), encodings, objects, w)
    ensures Compiles(top) <==> |objects| <= 1 || Common(encodings) != {}
  {
    encodings := FinishAll(objects);
    decoders, top, trees := Generate(encodings, width);
    assert FinishedFrom(encodings, objects);
    forall w: Word | AllAgree(trees, w)
      ensures Answers(RunAll(decoders, w), encodings, objects, w)
    {
      GeneratedRight(decoders, trees, encodings, w);
      RightAnswers(RunAll(decoders, w), encodings, objects, w);
    }
  }

  /** For two encodings that share no significant bit the top-level function is ill formed. */
  method IllFormed(c: Constraint, d: Constraint, width: nat) returns (top: seq<TopStatement>)
    requires IsMasked(c) && IsMasked(d) && c.lhs.Mask() * d.lhs.Mask() == {}
    ensures !Compiles(top)
  {
    var e, f := OpcodeAnd("first", c, []), OpcodeAnd("second", d, []);
    assert e in [e, f] && f in [e, f];
    assert Common([e, f]) <= e.mask * f.mask;
    var decoders;
    ghost var trees;
    decoders, top, trees := Generate([e, f], width);
  }

  /** The empty first group takes the first encoding. */
  lemma {:induction false} StartEmpty(encs: seq<Encoding>)
    requires encs != []
    ensures FirstFitAll([[]], encs) == FirstFitAll([], encs)
  {
    assert [] + [encs[0]] == [encs[0]];
    assert FirstFit([[]], encs[0]) == FirstFit([], encs[0]);
  }
}
