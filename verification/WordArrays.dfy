/** Arrays of 64-bit words as one long bit vector, and the loops that shift them. */
module WordArrays {
  import opened Words

  /** The bits of a list of words, word 0 lowest. */
  function Flat(ws: seq<Word>): Bits {
    if ws == [] then {} else ws[0] + Shl(Flat(ws[1..]), 64)
  }

  /** Bit p of word j of a bit vector. */
  predicate At(x: Bits, j: nat, p: nat) {
    64 * j + p in x
  }

  lemma {:induction false} FlatAt(ws: seq<Word>, j: nat, p: nat)
    requires p < 64
    ensures At(Flat(ws), j, p) <==> j < |ws| && p in ws[j]
  {
    if ws != [] {
      if j > 0 { FlatAt(ws[1..], j - 1, p); }
      assert At(Flat(ws), j, p) <==> 64 * j + p in ws[0] || (j > 0 && At(Flat(ws[1..]), j - 1, p));
    }
  }

  lemma {:induction false} FlatFits(ws: seq<Word>)
    ensures Fits(Flat(ws), 64 * |ws|)
  {
    if ws != [] { FlatFits(ws[1..]); }
  }

  /** Bit vectors with the same words are the same. */
  lemma {:induction false} SameWords(x: Bits, y: Bits)
    requires forall j: nat, p: nat | p < 64 :: At(x, j, p) <==> At(y, j, p)
    ensures x == y
  {
    forall q: nat
      ensures q in x <==> q in y
    {
      assert At(x, q / 64, q % 64) <==> At(y, q / 64, q % 64);
      assert 64 * (q / 64) + q % 64 == q;
    }
  }

  lemma {:induction false} FlatEmpty(ws: seq<Word>)
    requires forall j | 0 <= j < |ws| :: ws[j] == {}
    ensures Flat(ws) == {}
  {
    forall j: nat, p: nat | p < 64 ensures At(Flat(ws), j, p) <==> At({}, j, p) { FlatAt(ws, j, p); }
    SameWords(Flat(ws), {});
  }

  lemma {:induction false} CommonWord(a: seq<Word>, b: seq<Word>, j: nat)
    requires j < |a| && j < |b| && a[j] * b[j] != {}
    ensures Flat(a) * Flat(b) != {}
  {
    var p :| p in a[j] * b[j];
    FlatAt(a, j, p);
    FlatAt(b, j, p);
    assert 64 * j + p in Flat(a) * Flat(b);
  }

  lemma {:induction false} NoCommonWord(a: seq<Word>, b: seq<Word>)
    requires forall j | 0 <= j < |a| && j < |b| :: a[j] * b[j] == {}
    ensures Flat(a) * Flat(b) == {}
  {
    forall j: nat, p: nat | p < 64
      ensures At(Flat(a) * Flat(b), j, p) <==> At({}, j, p)
    {
      FlatAt(a, j, p);
      FlatAt(b, j, p);
      if j < |a| && j < |b| { assert p !in a[j] * b[j]; }
    }
    SameWords(Flat(a) * Flat(b), {});
  }

  /** Setting the bits of b under a mask. */
  lemma {:induction false} SetWords(before: seq<Word>, after: seq<Word>, b: seq<Word>, mask: seq<Word>)
    requires |before| == |after| == |mask|
    requires forall j | 0 <= j < |after| :: after[j] == if j < |b| then before[j] + b[j] * mask[j] else before[j]
    ensures Flat(after) == Flat(before) + Flat(b) * Flat(mask)
  {
    forall j: nat, p: nat | p < 64
      ensures At(Flat(after), j, p) <==> At(Flat(before) + Flat(b) * Flat(mask), j, p)
    {
      FlatAt(before, j, p);
      FlatAt(after, j, p);
      FlatAt(b, j, p);
      FlatAt(mask, j, p);
    }
    SameWords(Flat(after), Flat(before) + Flat(b) * Flat(mask));
  }

  /** Clearing the bits of b under a mask. */
  lemma {:induction false} ClearWords(before: seq<Word>, after: seq<Word>, b: seq<Word>, mask: seq<Word>)
    requires |before| == |after| == |mask|
    requires forall j | 0 <= j < |after| :: after[j] == if j < |b| then before[j] - b[j] * mask[j] else before[j]
    ensures Flat(after) == Flat(before) - Flat(b) * Flat(mask)
  {
    forall j: nat, p: nat | p < 64
      ensures At(Flat(after), j, p) <==> At(Flat(before) - Flat(b) * Flat(mask), j, p)
    {
      FlatAt(before, j, p);
      FlatAt(after, j, p);
      FlatAt(b, j, p);
      FlatAt(mask, j, p);
    }
    SameWords(Flat(after), Flat(before) - Flat(b) * Flat(mask));
  }

  // ----- shifting -----

  /** What the two loops of the shift compute in a vector of n bits: whole words move up instead of down, then
      all bits move down by the rest; bits that would come from above position n are lost. */
  function Moved(x: Bits, count: nat, rest: nat, n: nat): Bits {
    set p | p in x && rest <= p && p + 64 * count < n :: p - rest + 64 * count
  }

  lemma {:induction false} MovedBit(x: Bits, count: nat, rest: nat, n: nat, q: nat)
    ensures q in Moved(x, count, rest, n) <==> q >= 64 * count && q - 64 * count + rest in x && q + rest < n
  {
    if q >= 64 * count && q - 64 * count + rest in x && q + rest < n {
      var p := q - 64 * count + rest;
      assert p in x && rest <= p && p + 64 * count < n && p - rest + 64 * count == q;
    }
  }

  /** The bit rest positions above bit p of word j, in that word or the next. */
  predicate FromWord(ws: seq<Word>, j: nat, rest: nat, p: nat)
    requires j < |ws|
  {
    if p + rest < 64 then p + rest in ws[j] else j + 1 < |ws| && p + rest - 64 in ws[j + 1]
  }

  /** Word j with every bit replaced by the one rest positions above. */
  function Joined(ws: seq<Word>, j: nat, rest: nat): Word
    requires j < |ws|
  {
    set p: nat | p < 64 && FromWord(ws, j, rest, p)
  }

  /** Joining a word, shifted right, with the low bits of the next one. */
  lemma {:induction false} JoinWords(ws: seq<Word>, j: nat, rest: nat)
    requires j < |ws| && rest < 64
    ensures rest > 0 ==> Shr(ws[j], rest) + (if j + 1 < |ws| then Shl64(ws[j + 1], 64 - rest) else {}) == Joined(ws, j, rest)
    ensures rest == 0 ==> Joined(ws, j, rest) == ws[j]
  {
    var upper: Word := if rest > 0 && j + 1 < |ws| then Shl64(ws[j + 1], 64 - rest) else {};
    forall p: nat
      ensures p in Shr(ws[j], rest) + upper <==> p in Joined(ws, j, rest)
    {
      assert p in Shr(ws[j], rest) <==> p + rest in ws[j];
      assert p in upper <==> rest > 0 && j + 1 < |ws| && 64 - rest <= p < 64 && p - (64 - rest) in ws[j + 1];
      assert p < 64 ==> (p in Joined(ws, j, rest) <==> FromWord(ws, j, rest, p));
    }
    if rest == 0 {
      assert Shr(ws[j], 0) + {} == ws[j];
    }
  }

  ghost predicate WordsMoved(before: seq<Word>, between: seq<Word>, count: nat) {
    && |before| == |between|
    && forall j {:trigger between[j]} | 0 <= j < |before| :: between[j] == if j < count then {} else before[j - count]
  }

  ghost predicate BitsMoved(between: seq<Word>, after: seq<Word>, count: nat, rest: nat)
    requires rest < 64
  {
    && |between| == |after|
    && forall j {:trigger after[j]} | 0 <= j < |after| :: after[j] == if j < count then between[j] else Joined(between, j, rest)
  }

  lemma {:induction false} MovedAt(x: Bits, count: nat, rest: nat, size: nat, j: nat, p: nat)
    requires rest < 64 && p < 64
    ensures At(Moved(x, count, rest, 64 * size), j, p) <==>
            j >= count && if p + rest < 64 then j < size && At(x, j - count, p + rest) else j + 1 < size && At(x, j + 1 - count, p + rest - 64)
  {
    MovedBit(x, count, rest, 64 * size, 64 * j + p);
  }

  /** Bit p of word j after both moves comes from the same word as far as the bits of the word reach. */
  lemma {:induction false} SameWordAt(before: seq<Word>, between: seq<Word>, after: seq<Word>, count: nat, rest: nat, j: nat, p: nat)
    requires p + rest < 64 && WordsMoved(before, between, count) && BitsMoved(between, after, count, rest)
    ensures At(Flat(after), j, p) <==> j >= count && j < |before| && At(Flat(before), j - count, p + rest)
  {
    FlatAt(after, j, p);
    if count <= j < |before| {
      assert p in after[j] <==> FromWord(between, j, rest, p);
      FlatAt(before, j - count, p + rest);
    }
  }

  /** Otherwise it comes from the word above. */
  lemma {:induction false} NextWordAt(before: seq<Word>, between: seq<Word>, after: seq<Word>, count: nat, rest: nat, j: nat, p: nat)
    requires rest < 64 && p < 64 <= p + rest && WordsMoved(before, between, count) && BitsMoved(between, after, count, rest)
    ensures At(Flat(after), j, p) <==> j >= count && j + 1 < |before| && At(Flat(before), j + 1 - count, p + rest - 64)
  {
    FlatAt(after, j, p);
    if count <= j < |before| {
      assert p in after[j] <==> FromWord(between, j, rest, p);
      FlatAt(before, j + 1 - count, p + rest - 64);
    }
  }

  /** The two loops together compute the move. */
  lemma {:induction false} WordsAndBits(before: seq<Word>, between: seq<Word>, after: seq<Word>, count: nat, rest: nat)
    requires rest < 64 && WordsMoved(before, between, count) && BitsMoved(between, after, count, rest)
    ensures Flat(after) == Moved(Flat(before), count, rest, 64 * |before|)
  {
    forall j: nat, p: nat | p < 64
      ensures At(Flat(after), j, p) <==> At(Moved(Flat(before), count, rest, 64 * |before|), j, p)
    {
      if p + rest < 64 {
        SameWordAt(before, between, after, count, rest, j, p);
      } else {
        NextWordAt(before, between, after, count, rest, j, p);
      }
      MovedAt(Flat(before), count, rest, |before|, j, p);
    }
    SameWords(Flat(after), Moved(Flat(before), count, rest, 64 * |before|));
  }

  method ClearAll(bits: array<Word>)
    modifies bits
    ensures Flat(bits[..]) == {}
  {
    for i := 0 to bits.Length
      invariant forall j | 0 <= j < i :: bits[j] == {}
    {
      bits[i] := {};
    }
    FlatEmpty(bits[..]);
  }

  /** Moves whole words up. */
  method MoveWords(bits: array<Word>, count: nat)
    modifies bits
    ensures WordsMoved(old(bits[..]), bits[..], count)
  {
    if count > 0 {
      for i := bits.Length downto 0
        invariant forall j | i <= j < bits.Length :: bits[j] == if j < count then {} else old(bits[j - count])
        invariant forall j | 0 <= j < i :: bits[j] == old(bits[j])
      {
        var index := i - count;
        bits[i] := if index < 0 then {} else bits[index];
      }
    }
  }

  /** Moves the bits from word count on down by less than a word. */
  method MoveBits(bits: array<Word>, count: nat, rest: nat)
    requires count <= bits.Length && rest < 64
    modifies bits
    ensures BitsMoved(old(bits[..]), bits[..], count, rest)
  {
    if rest == 0 {
      forall j | 0 <= j < bits.Length ensures Joined(bits[..], j, 0) == bits[j] { JoinWords(bits[..], j, 0); }
      return;
    }
    for i := count to bits.Length
      invariant forall j {:trigger bits[j]} | 0 <= j < bits.Length :: bits[j] == if count <= j < i then Joined(old(bits[..]), j, rest) else old(bits[j])
    {
      JoinWords(old(bits[..]), i, rest);
      var upper := if i + 1 < bits.Length then Shl64(bits[i + 1], 64 - rest) else {};
      bits[i] := Shr(bits[i], rest);
      bits[i] := bits[i] + upper;
    }
  }
}
