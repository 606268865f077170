/** Encodings ordered by masked value, and the search for duplicates among them. */
module Sorting {
  import opened Words
  import opened Status
  import opened Extract
  import opened InstructionEncodings

  /** The masked value by which encodings are ordered. */
  function Key(e: Encoding, mask: Word): nat {
    Num(e.value * mask, 64)
  }

  predicate SortedBy(encs: seq<Encoding>, mask: Word) {
    |encs| <= 1 || (Key(encs[0], mask) <= Key(encs[1], mask) && SortedBy(encs[1..], mask))
  }

  function Insert(encs: seq<Encoding>, e: Encoding, mask: Word): seq<Encoding> {
    if encs == [] || Key(e, mask) < Key(encs[0], mask) then [e] + encs
    else [encs[0]] + Insert(encs[1..], e, mask)
  }

  lemma {:induction false} InsertSorts(encs: seq<Encoding>, e: Encoding, mask: Word)
    requires SortedBy(encs, mask)
    ensures SortedBy(Insert(encs, e, mask), mask)
    ensures multiset(Insert(encs, e, mask)) == multiset(encs) + multiset{e}
  {
    var all := Insert(encs, e, mask);
    if encs == [] || Key(e, mask) < Key(encs[0], mask) {
      assert all[1..] == encs;
    } else {
      InsertSorts(encs[1..], e, mask);
      assert all[1..] == Insert(encs[1..], e, mask);
      assert encs == [encs[0]] + encs[1..];
    }
  }

  /** Any order that sorts by masked value will do; the standard sort is not stable. */
  method Sort(encs: seq<Encoding>, key: Word) returns (sorted: seq<Encoding>)
    ensures multiset(sorted) == multiset(encs) && SortedBy(sorted, key)
  {
    sorted := [];
    for i := 0 to |encs|
      invariant multiset(sorted) == multiset(encs[..i]) && SortedBy(sorted, key)
    {
      InsertSorts(sorted, encs[i], key);
      assert encs[..i + 1] == encs[..i] + [encs[i]];
      sorted := Insert(sorted, encs[i], key);
    }
    assert encs[..|encs|] == encs;
  }

  // ----- duplicates -----

  /** No two encodings have the same discriminator value. */
  ghost predicate DistinctBy(encs: seq<Encoding>, d: Word) {
    forall i, j | 0 <= i < j < |encs| :: Index(encs[i].value, d) != Index(encs[j].value, d)
  }

  /** Two encodings have the same discriminator value. */
  ghost predicate Collide(e: Encoding, f: Encoding, d: Word) {
    Index(e.value, d) == Index(f.value, d)
  }

  lemma {:induction false} SortedTail(encs: seq<Encoding>, d: Word, i: nat)
    requires SortedBy(encs, d) && 0 < i < |encs|
    ensures Key(encs[0], d) <= Key(encs[i], d)
  {
    if i > 1 { SortedTail(encs[1..], d, i - 1); }
  }

  lemma {:induction false} SortedAt(encs: seq<Encoding>, d: Word, i: nat, j: nat)
    requires SortedBy(encs, d) && i <= j < |encs|
    ensures Key(encs[i], d) <= Key(encs[j], d)
    ensures Index(encs[i].value, d) <= Index(encs[j].value, d)
  {
    if i == 0 {
      if j > 0 { SortedTail(encs, d, j); }
      IndexMonotone(encs[j].value, encs[0].value, d);
    } else {
      SortedAt(encs[1..], d, i - 1, j - 1);
      assert encs[1..][i - 1] == encs[i] && encs[1..][j - 1] == encs[j];
    }
  }

  /** Among sorted encodings, duplicates include two that are next to each other. */
  lemma {:induction false} NeighboursSuffice(encs: seq<Encoding>, d: Word)
    requires SortedBy(encs, d)
    ensures DistinctBy(encs, d) <==> forall i | 0 < i < |encs| :: !Collide(encs[i - 1], encs[i], d)
  {
    if forall i | 0 < i < |encs| :: !Collide(encs[i - 1], encs[i], d) {
      forall i, j | 0 <= i < j < |encs|
        ensures Index(encs[i].value, d) != Index(encs[j].value, d)
      {
        SortedAt(encs, d, i, j - 1);
        SortedAt(encs, d, j - 1, j);
        assert !Collide(encs[j - 1], encs[j], d);
      }
    }
  }

  /** The encodings that collide with the one before them, each with that one. */
  function Collisions(encs: seq<Encoding>, d: Word): seq<(Encoding, Encoding)> {
    if |encs| < 2 then []
    else (if Index(encs[0].value, d) == Index(encs[1].value, d) then [(encs[1], encs[0])] else []) + Collisions(encs[1..], d)
  }

  /** What is reported is every encoding with the index of the one before it, together with that one. */
  lemma {:induction false} CollisionsAre(encs: seq<Encoding>, d: Word, e: Encoding, f: Encoding)
    ensures (e, f) in Collisions(encs, d) <==>
            exists k :: 0 < k < |encs| && e == encs[k] && f == encs[k - 1] && Index(e.value, d) == Index(f.value, d)
  {
    if |encs| >= 2 {
      var rest := encs[1..];
      CollisionsAre(rest, d, e, f);
      if k :| 0 < k < |encs| && e == encs[k] && f == encs[k - 1] && Index(e.value, d) == Index(f.value, d) {
        if k > 1 { assert e == rest[k - 1] && f == rest[k - 2]; }
      }
      if k :| 0 < k < |rest| && e == rest[k] && f == rest[k - 1] && Index(e.value, d) == Index(f.value, d) {
        assert e == encs[k + 1] && f == encs[k];
      }
    }
  }

  lemma {:induction false} NoCollisions(encs: seq<Encoding>, d: Word)
    ensures Collisions(encs, d) == [] <==> forall i | 0 < i < |encs| :: !Collide(encs[i - 1], encs[i], d)
  {
    if |encs| >= 2 {
      NoCollisions(encs[1..], d);
      var rest := encs[1..];
      if forall i | 0 < i < |rest| :: !Collide(rest[i - 1], rest[i], d) {
        forall i | 1 < i < |encs| ensures !Collide(encs[i - 1], encs[i], d) { assert !Collide(rest[i - 2], rest[i - 1], d); }
      }
      if forall i | 0 < i < |encs| :: !Collide(encs[i - 1], encs[i], d) {
        forall i | 0 < i < |rest| ensures !Collide(rest[i - 1], rest[i], d) { assert !Collide(encs[i], encs[i + 1], d); }
        assert !Collide(encs[0], encs[1], d);
      }
      if Collisions(encs, d) == [] { assert !Collide(encs[0], encs[1], d); }
    }
  }

  /** On a sorted group nothing collides exactly when all discriminator values are different. */
  lemma {:induction false} CollisionsFound(encs: seq<Encoding>, d: Word)
    requires SortedBy(encs, d)
    ensures Collisions(encs, d) == [] <==> DistinctBy(encs, d)
  {
    NoCollisions(encs, d);
    NeighboursSuffice(encs, d);
  }

  /** Compares each encoding with its predecessor. The index is kept in an int, which is exact for
      discriminators of at most 31 bits; then no index equals the initial -1. */
  method FindDuplicates(encs: seq<Encoding>, ghost d: Word, recipe: seq<Step>) returns (duplicates: seq<(Encoding, Encoding)>)
    requires Extracts(recipe, d) && Popcount(d) <= 31
    ensures duplicates == Collisions(encs, d)
  {
    duplicates := [];
    var previous: int := -1;
    for i := 0 to |encs|
      invariant previous == if i == 0 then -1 else Index(encs[i - 1].value, d)
      invariant duplicates + Collisions(encs[(if i == 0 then 0 else i - 1)..], d) == Collisions(encs, d)
    {
      var extracted := ExtractValue(encs[i].value, recipe);
      var index := Num(extracted, 64);
      if i > 0 {
        var rest := encs[i - 1..];
        assert rest[0] == encs[i - 1] && rest[1] == encs[i] && rest[1..] == encs[i..];
      }
      if index == previous {
        assert duplicates + ([(encs[i], encs[i - 1])] + Collisions(encs[i..], d)) == (duplicates + [(encs[i], encs[i - 1])]) + Collisions(encs[i..], d);
        duplicates := duplicates + [(encs[i], encs[i - 1])];
      }
      previous := index;
    }
  }
}
