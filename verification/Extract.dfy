/** Extraction recipes: compressing the bits selected by a mask into adjacent positions. */
module Extract {
  import opened Words
  import opened Folding

  /** One step: (value >> shift) & mask. */
  datatype Step = Step(mask: Word, shift: int)

  /** The number of set positions of d below p: the place of position p in the compressed value. */
  function Rank(d: Bits, p: nat): (r: nat)
    ensures r <= p
  {
    if p == 0 then 0 else Rank(d, p - 1) + if p - 1 in d then 1 else 0
  }

  function Popcount(d: Word): nat {
    Rank(d, 64)
  }

  /** The bits of w selected by d below position n, packed without changing their order. */
  function CompressBelow(w: Bits, d: Bits, n: nat): Bits {
    set p | p in d * w && p < n :: Rank(d, p)
  }

  /** The parallel bit compress of w by d. */
  function Compress(w: Word, d: Word): Bits {
    CompressBelow(w, d, 64)
  }

  lemma {:induction false} RankMonotone(d: Bits, p: nat, q: nat)
    requires p <= q
    ensures Rank(d, p) <= Rank(d, q)
    ensures p in d && p < q ==> Rank(d, p) < Rank(d, q)
  {
    if p < q { RankMonotone(d, p, q - 1); }
  }

  lemma {:induction false} RankInjective(d: Bits, p: nat, q: nat)
    requires p in d && q in d && Rank(d, p) == Rank(d, q)
    ensures p == q
  {
    if p < q { RankMonotone(d, p, q); }
    if q < p { RankMonotone(d, q, p); }
  }

  lemma {:induction false} RankRun(d: Bits, lo: nat, p: nat)
    requires lo <= p && forall i: nat | lo <= i < p :: i in d
    ensures Rank(d, p) == Rank(d, lo) + (p - lo)
  {
    if lo < p { RankRun(d, lo, p - 1); }
  }

  lemma {:induction false} RankGap(d: Bits, lo: nat, p: nat)
    requires lo <= p && forall i: nat | lo <= i < p :: i !in d
    ensures Rank(d, p) == Rank(d, lo)
  {
    if lo < p { RankGap(d, lo, p - 1); }
  }

  /** Result bit Rank(d, p) is the bit of w at the selected position p, and no bit at or above
      the number of selected positions is set. */
  lemma {:induction false} CompressBits(w: Word, d: Word)
    ensures forall p | p in d :: Rank(d, p) in Compress(w, d) <==> p in w
    ensures Fits(Compress(w, d), Popcount(d))
  {
    forall p | p in d
      ensures Rank(d, p) in Compress(w, d) <==> p in w
    {
      if p in w { assert p in d * w; }
      if Rank(d, p) in Compress(w, d) {
        var q :| q in d * w && Rank(d, q) == Rank(d, p);
        RankInjective(d, p, q);
      }
    }
    forall k | k in Compress(w, d)
      ensures k < Popcount(d)
    {
      var p :| p in d * w && Rank(d, p) == k;
      RankMonotone(d, p, 64);
    }
  }

  /** Extraction forgets nothing about the selected bits. */
  lemma {:induction false} CompressInjective(v: Word, w: Word, d: Word)
    ensures Compress(v, d) == Compress(w, d) <==> v * d == w * d
  {
    CompressBits(v, d);
    CompressBits(w, d);
    if v * d == w * d {
      assert d * v == d * w by {
        assert d * v == v * d && d * w == w * d;
      }
    }
    if Compress(v, d) == Compress(w, d) {
      forall p | p in d
        ensures p in v <==> p in w
      {
        assert Rank(d, p) in Compress(v, d) <==> p in v;
      }
    }
  }

  /** The number a switch or a table index sees. */
  function Index(w: Word, d: Word): nat {
    Num(Compress(w, d), 64)
  }

  lemma {:induction false} RankOnto(d: Bits, n: nat, k: nat) returns (p: nat)
    requires k < Rank(d, n)
    ensures p < n && p in d && Rank(d, p) == k
  {
    if n - 1 in d && Rank(d, n - 1) == k {
      p := n - 1;
    } else {
      p := RankOnto(d, n - 1, k);
    }
  }

  lemma {:induction false} CompressFits(w: Word, d: Word)
    ensures Fits(Compress(w, d), 64)
  {
    CompressBits(w, d);
  }

  /** Indices are equal exactly when the selected bits are. */
  lemma {:induction false} IndexInjective(v: Word, w: Word, d: Word)
    ensures Index(v, d) == Index(w, d) <==> v * d == w * d
  {
    CompressFits(v, d);
    CompressFits(w, d);
    NumInjective(Compress(v, d), Compress(w, d), 64);
    CompressInjective(v, w, d);
  }

  /** Every index is below the table size 1 << popcount(d). */
  lemma {:induction false} IndexInBounds(w: Word, d: Word)
    ensures Index(w, d) < Pow2(Popcount(d))
  {
    CompressBits(w, d);
    NumWiden(Compress(w, d), Popcount(d), 64);
    NumBound(Compress(w, d), Popcount(d));
  }

  /** Extraction is strictly increasing in the masked value, so sorting by masked value
      orders encodings by index. */
  lemma {:induction false} IndexMonotone(v: Word, w: Word, d: Word)
    ensures Index(v, d) < Index(w, d) <==> Num(v * d, 64) < Num(w * d, 64)
  {
    if v * d == w * d {
      IndexInjective(v, w, d);
    } else {
      var i: nat :| (i in v * d) != (i in w * d);
      var k := HighestDifference(v * d, w * d, 64);
      if k in w {
        IndexBelow(v, w, d, k);
        NumLess(v * d, w * d, k, 64);
      } else {
        IndexBelow(w, v, d, k);
        NumLess(w * d, v * d, k, 64);
      }
    }
  }

  lemma {:induction false} IndexBelow(v: Word, w: Word, d: Word, k: nat)
    requires k < 64 && k in d && k !in v && k in w
    requires forall i: nat | k < i < 64 :: i in v * d <==> i in w * d
    ensures Index(v, d) < Index(w, d)
  {
    CompressBits(v, d);
    CompressBits(w, d);
    var r := Rank(d, k);
    RankMonotone(d, k, 64);
    forall j: nat | r < j < 64
      ensures j in Compress(v, d) <==> j in Compress(w, d)
    {
      if j < Popcount(d) {
        var p := RankOnto(d, 64, j);
        if p <= k { RankMonotone(d, p, k); }
        assert p in v * d <==> p in w * d;
      }
    }
    NumLess(Compress(v, d), Compress(w, d), r, 64);
  }

  /** What a recipe computes from a value. */
  function Apply(w: Word, recipe: seq<Step>): Word
    requires forall s | s in recipe :: s.shift >= 0
  {
    if recipe == [] then {}
    else
      var s := recipe[|recipe| - 1];
      Apply(w, recipe[..|recipe| - 1]) + Shr(w, s.shift) * s.mask
  }

  /** The recipe has no negative shift and its steps write disjoint result bits. */
  ghost predicate Valid(recipe: seq<Step>) {
    && (forall s | s in recipe :: s.shift >= 0)
    && (forall i, j | 0 <= i < j < |recipe| :: recipe[i].mask !! recipe[j].mask)
  }

  /** The recipe compresses every word by d. */
  ghost predicate Extracts(recipe: seq<Step>, d: Word) {
    Valid(recipe) && forall w: Word :: Apply(w, recipe) == Compress(w, d)
  }

  /** Without a step nothing is extracted, so nothing is selected. */
  lemma {:induction false} EmptyRecipe(d: Word)
    requires Extracts([], d)
    ensures d == {}
  {
    if p :| p in d {
      CompressBits(d, d);
      assert Apply(d, []) == Compress(d, d);
    }
  }

  ghost predicate ExtractsBelow(recipe: seq<Step>, d: Word, n: nat) {
    && Valid(recipe)
    && (forall s | s in recipe :: Fits(s.mask, Rank(d, n)))
    && (forall w: Word :: Apply(w, recipe) == CompressBelow(w, d, n))
  }

  method ExtractValue(value: Word, recipe: seq<Step>) returns (extracted: Word)
    requires forall s | s in recipe :: s.shift >= 0
    ensures extracted == Apply(value, recipe)
  {
    extracted := {};
    for i := 0 to |recipe|
      invariant extracted == Apply(value, recipe[..i])
    {
      assert recipe[..i + 1][..i] == recipe[..i];
      extracted := extracted + Shr(value, recipe[i].shift) * recipe[i].mask;
    }
    assert recipe[..|recipe|] == recipe;
  }

  /** A run of ones occupying positions lo, ..., hi - 1 of the mask. */
  ghost predicate IsRun(d: Word, lo: nat, hi: nat) {
    lo <= hi <= 64 && (forall i: nat | lo <= i < hi :: i in d)
  }

  lemma {:induction false} PushRun(recipe: seq<Step>, d: Word, lo: nat, hi: nat)
    requires IsRun(d, lo, hi) && ExtractsBelow(recipe, d, lo)
    ensures Rank(d, lo) <= lo && Fits(Shl(Low(hi - lo), Rank(d, lo)), 64)
    ensures ExtractsBelow(recipe + [Step(Shl(Low(hi - lo), Rank(d, lo)), lo - Rank(d, lo))], d, hi)
  {
    var t := Rank(d, lo);
    RankRun(d, lo, hi);
    var step := Step(Shl(Low(hi - lo), t), lo - t);
    var longer := recipe + [step];
    forall w: Word
      ensures Apply(w, longer) == CompressBelow(w, d, hi)
    {
      assert longer[..|recipe|] == recipe;
      forall k: nat
        ensures k in Apply(w, longer) <==> k in CompressBelow(w, d, hi)
      {
        RunBit(w, d, lo, hi, k);
      }
    }
  }

  lemma {:induction false} RunBit(w: Word, d: Word, lo: nat, hi: nat, k: nat)
    requires IsRun(d, lo, hi)
    ensures k in CompressBelow(w, d, hi) <==>
            k in CompressBelow(w, d, lo) || (Rank(d, lo) <= k < Rank(d, lo) + (hi - lo) && k + (lo - Rank(d, lo)) in w)
  {
    var t := Rank(d, lo);
    if t <= k < t + (hi - lo) && k + (lo - t) in w {
      var p := k + (lo - t);
      RankRun(d, lo, p);
      assert p in d * w && p < hi;
    }
    if k in CompressBelow(w, d, hi) && k !in CompressBelow(w, d, lo) {
      var p :| p in d * w && p < hi && Rank(d, p) == k;
      RankRun(d, lo, p);
    }
  }

  lemma {:induction false} SkipGap(recipe: seq<Step>, d: Word, lo: nat, hi: nat)
    requires lo <= hi && (forall i: nat | lo <= i < hi :: i !in d) && ExtractsBelow(recipe, d, lo)
    ensures ExtractsBelow(recipe, d, hi)
    ensures Rank(d, hi) == Rank(d, lo)
  {
    RankGap(d, lo, hi);
    forall w: Word
      ensures CompressBelow(w, d, hi) == CompressBelow(w, d, lo)
    {
    }
  }

  /** Flushing the run lo, ..., hi - 1 collected in the mask: one more step if the run is not empty. */
  function Flush(recipe: seq<Step>, mask: Word, lo: int, total: nat): seq<Step> {
    if mask == {} then recipe else recipe + [Step(Shl64(mask, total), lo - total)]
  }

  lemma {:induction false} FlushRun(recipe: seq<Step>, d: Word, mask: Word, lo: nat, hi: nat)
    requires IsRun(d, lo, hi) && mask == Low(hi - lo) && ExtractsBelow(recipe, d, lo)
    ensures ExtractsBelow(Flush(recipe, mask, lo, Rank(d, lo)), d, hi)
    ensures mask == {} <==> lo == hi
    ensures Rank(d, hi) == Rank(d, lo) + (hi - lo)
  {
    PushRun(recipe, d, lo, hi);
    RankRun(d, lo, hi);
    if lo < hi {
      assert 0 in mask;
      assert Shl64(mask, Rank(d, lo)) == Shl(Low(hi - lo), Rank(d, lo));
    }
  }

  /** The scan has reached position shift; the last width positions are the run in progress. */
  ghost predicate Scanning(d: Word, value: Word, mask: Word, shift: nat, width: nat, total: nat, recipe: seq<Step>) {
    && shift <= 64 && value == Shr(d, shift)
    && width <= shift && mask == Low(width) && IsRun(d, shift - width, shift)
    && total == Rank(d, shift - width)
    && ExtractsBelow(recipe, d, shift - width)
  }

  /** Scanning, folded: it is unfolded where Unfold(Scan) is asserted. */
  ghost predicate Scanned(d: Word, value: Word, mask: Word, shift: nat, width: nat, total: nat, recipe: seq<Step>) {
    forall t: Token {:trigger Unfold(t)} :: t == Scan && Unfold(t) ==> Scanning(d, value, mask, shift, width, total, recipe)
  }

  lemma {:induction false} GrowOnes(mask: Word, width: nat)
    requires mask == Low(width) && width < 64
    ensures Shl64(mask, 1) + {0} == Low(width + 1)
  {
  }

  lemma {:induction false} ShiftAgain(d: Word, shift: nat)
    ensures Shr(Shr(d, shift), 1) == Shr(d, shift + 1)
    ensures 0 in Shr(d, shift) <==> shift in d
  {
  }

  lemma {:induction false} ScanOne(d: Word, value: Word, mask: Word, shift: nat, width: nat, total: nat, recipe: seq<Step>)
    requires Scanned(d, value, mask, shift, width, total, recipe) && 0 in value
    ensures Scanned(d, Shr(value, 1), Shl64(mask, 1) + {0}, shift + 1, width + 1, total, recipe)
  {
    assert Unfold(Scan);
    ShiftAgain(d, shift);
    GrowOnes(mask, width);
  }

  lemma {:induction false} ScanZero(d: Word, value: Word, mask: Word, shift: nat, width: nat, total: nat, recipe: seq<Step>)
    requires Scanned(d, value, mask, shift, width, total, recipe) && 0 !in value && shift < 64
    ensures mask == {} ==> width == 0
    ensures Scanned(d, Shr(value, 1), {}, shift + 1, 0, total + width, Flush(recipe, mask, shift - width, total))
  {
    assert Unfold(Scan);
    ShiftAgain(d, shift);
    FlushRun(recipe, d, mask, shift - width, shift);
    SkipGap(Flush(recipe, mask, shift - width, total), d, shift, shift + 1);
    assert {} == Low(0);
  }

  lemma {:induction false} ScanStart(d: Word)
    ensures Scanned(d, d, {}, 0, 0, 0, [])
  {
    assert Shr(d, 0) == d;
  }

  /** The scan ends after at most 64 positions. */
  lemma {:induction false} ScanBound(d: Word, value: Word, mask: Word, shift: nat, width: nat, total: nat, recipe: seq<Step>)
    requires Scanned(d, value, mask, shift, width, total, recipe)
    ensures width <= shift && (value != {} ==> shift < 64)
  {
    assert Unfold(Scan);
    ScanEnd(d, value, shift);
  }

  lemma {:induction false} ScanEnd(d: Word, value: Word, shift: nat)
    requires value == Shr(d, shift)
    ensures shift >= 64 ==> value == {}
    ensures value == {} ==> forall i: nat | shift <= i :: i !in d
  {
    if value == {} {
      forall i: nat | shift <= i
        ensures i !in d
      {
        assert i - shift !in value;
      }
    }
  }

  lemma {:induction false} ScanDone(d: Word, mask: Word, shift: nat, width: nat, total: nat, recipe: seq<Step>)
    requires Scanned(d, {}, mask, shift, width, total, recipe)
    ensures Extracts(Flush(recipe, mask, shift - width, total), d)
    ensures d == {} ==> mask == {}
  {
    assert Unfold(Scan);
    ScanEnd(d, {}, shift);
    LastRun(d, mask, shift, shift - width, recipe);
  }

  lemma {:induction false} LastRun(d: Word, mask: Word, shift: nat, lo: nat, recipe: seq<Step>)
    requires lo <= shift && IsRun(d, lo, shift) && mask == Low(shift - lo) && ExtractsBelow(recipe, d, lo)
    requires forall i: nat | shift <= i :: i !in d
    ensures Extracts(Flush(recipe, mask, lo, Rank(d, lo)), d)
    ensures d == {} ==> mask == {}
  {
    FlushRun(recipe, d, mask, lo, shift);
    SkipGap(Flush(recipe, mask, lo, Rank(d, lo)), d, shift, 64);
    RunOfNothing(d, lo, shift, mask);
  }

  lemma {:induction false} RunOfNothing(d: Word, lo: nat, hi: nat, mask: Word)
    requires lo <= hi && mask == Low(hi - lo) && IsRun(d, lo, hi)
    ensures d == {} ==> mask == {}
  {
    if lo < hi { assert lo in d; }
  }

  /** Adds a step for the run that ends, if there is one. */
  method PushRunStep(recipe: seq<Step>, mask: Word, lo: int, totalWidth: nat) returns (longer: seq<Step>)
    ensures longer == Flush(recipe, mask, lo, totalWidth)
  {
    longer := recipe;
    if mask != {} {
      longer := recipe + [Step(Shl64(mask, totalWidth), lo - totalWidth)];
    }
  }

  method GetExtractionRecipe(d: Word) returns (recipe: seq<Step>)
    ensures Extracts(recipe, d)
    ensures d == {} ==> recipe == []
  {
    recipe := [];
    var value: Word := d;
    var mask: Word := {};
    var shift, width, totalWidth: nat := 0, 0, 0;
    ScanStart(d);
    while value != {}
      invariant Scanned(d, value, mask, shift, width, totalWidth, recipe)
      invariant d == {} ==> value == {} && recipe == []
      decreases 64 - shift
    {
      ScanBound(d, value, mask, shift, width, totalWidth, recipe);
      if 0 in value {
        ScanOne(d, value, mask, shift, width, totalWidth, recipe);
        mask := Shl64(mask, 1);
        mask := mask + {0};
        width := width + 1;
      } else {
        ScanZero(d, value, mask, shift, width, totalWidth, recipe);
        recipe := PushRunStep(recipe, mask, shift - width, totalWidth);
        if mask != {} {
          totalWidth := totalWidth + width;
        }
        mask := {};
        width := 0;
      }
      shift := shift + 1;
      value := Shr(value, 1);
    }
    ScanBound(d, value, mask, shift, width, totalWidth, recipe);
    ScanDone(d, mask, shift, width, totalWidth, recipe);
    recipe := PushRunStep(recipe, mask, shift - width, totalWidth);
  }
}
