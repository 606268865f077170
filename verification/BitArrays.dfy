/** Bit fields of big-endian byte arrays, for instruction words that no integer type can hold. */
module BitArrays {
  import opened Words
  import opened Folding

  type Byte = x: Bits | Fits(x, 8)

  /** The integer a byte array stands for; the last byte is the lowest. */
  function Value(data: seq<Byte>): Bits {
    if data == [] then {} else data[|data| - 1] + Shl(Value(data[..|data| - 1]), 8)
  }

  /** Bit p of the byte at distance j from the end. */
  predicate At(x: Bits, j: nat, p: nat) {
    8 * j + p in x
  }

  lemma {:induction false} ValueAt(data: seq<Byte>, j: nat, p: nat)
    requires p < 8
    ensures At(Value(data), j, p) <==> j < |data| && p in data[|data| - 1 - j]
  {
    if data != [] {
      var front := data[..|data| - 1];
      if j > 0 {
        ValueAt(front, j - 1, p);
        assert j < |data| ==> front[|front| - 1 - (j - 1)] == data[|data| - 1 - j];
      }
      assert At(Value(data), j, p) <==> 8 * j + p in data[|data| - 1] || (j > 0 && At(Value(front), j - 1, p));
    }
  }

  /** Integers with the same bytes are the same. */
  lemma {:induction false} SameBytes(x: Bits, y: Bits)
    requires forall j: nat, p: nat | p < 8 :: At(x, j, p) <==> At(y, j, p)
    ensures x == y
  {
    forall q: nat
      ensures q in x <==> q in y
    {
      assert At(x, q / 8, q % 8) <==> At(y, q / 8, q % 8);
      assert 8 * (q / 8) + q % 8 == q;
    }
  }

  // ----- bit fields of integers -----

  /** x with bits lsb, ..., lsb + width - 1 replaced by the low bits of v. */
  function WithField(x: Bits, lsb: nat, width: nat, v: Bits): Bits {
    (x - Shl(Low(width), lsb)) + Shl(v * Low(width), lsb)
  }

  lemma {:induction false} WithFieldBit(x: Bits, lsb: nat, width: nat, v: Bits, q: nat)
    ensures q in WithField(x, lsb, width, v) <==> if lsb <= q < lsb + width then q - lsb in v else q in x
  {
  }

  /** In numbers: the field is x / 2^lsb mod 2^width. */
  lemma {:induction false} FieldNumber(x: Bits, lsb: nat, width: nat, n: nat)
    ensures Num(Slice(x, lsb, width), width + n) == Num(x, lsb + (width + n)) / Pow2(lsb) % Pow2(width)
  {
    NumShr(x, lsb, width + n);
    NumShr(Shr(x, lsb), width, n);
  }

  /** What was put in is read back, modulo 2^width. */
  lemma {:induction false} FieldOfWith(x: Bits, lsb: nat, width: nat, v: Bits)
    ensures Slice(WithField(x, lsb, width, v), lsb, width) == v * Low(width)
  {
    forall i: nat
      ensures i in Slice(WithField(x, lsb, width, v), lsb, width) <==> i in v * Low(width)
    {
      WithFieldBit(x, lsb, width, v, i + lsb);
    }
  }

  /** A field that does not overlap is left as it was. */
  lemma {:induction false} OtherField(x: Bits, lsb: nat, width: nat, v: Bits, lsb': nat, width': nat)
    requires lsb + width <= lsb' || lsb' + width' <= lsb
    ensures Slice(WithField(x, lsb, width, v), lsb', width') == Slice(x, lsb', width')
  {
    forall i: nat
      ensures i in Slice(WithField(x, lsb, width, v), lsb', width') <==> i in Slice(x, lsb', width')
    {
      WithFieldBit(x, lsb, width, v, i + lsb');
    }
  }

  /** Putting back what was read changes nothing. */
  lemma {:induction false} WithOwnField(x: Bits, lsb: nat, width: nat)
    ensures WithField(x, lsb, width, Slice(x, lsb, width)) == x
  {
    forall q: nat
      ensures q in WithField(x, lsb, width, Slice(x, lsb, width)) <==> q in x
    {
      WithFieldBit(x, lsb, width, Slice(x, lsb, width), q);
      if q >= lsb { assert q - lsb in Slice(x, lsb, width) <==> q - lsb < width && q in x; }
    }
  }

  // ----- one byte at a time -----

  /** ((1 << width) - 1) << low, in a byte */
  function ByteMask(width: nat, low: nat): Byte
    requires width + low <= 8
  {
    Shl(Low(width), low)
  }

  lemma {:induction false} BytePart(b: Byte, low: nat, width: nat, done: nat, i: nat)
    requires low + width <= 8
    ensures i in Shl(Shr(b * ByteMask(width, low), low), done) <==> done <= i < done + width && i - done + low in b
  {
  }

  /** The bits taken from one byte are the next ones of the field. */
  lemma {:induction false} ExtractStep(data: seq<Byte>, lsb: nat, done: nat, j: nat, low: nat, width: nat)
    requires j < |data| && low + width <= 8 && lsb + done == 8 * j + low
    ensures Slice(Value(data), lsb, done) + Shl(Shr(data[|data| - 1 - j] * ByteMask(width, low), low), done) == Slice(Value(data), lsb, done + width)
  {
    var b, x := data[|data| - 1 - j], Value(data);
    forall i: nat
      ensures i in Slice(x, lsb, done) + Shl(Shr(b * ByteMask(width, low), low), done) <==> i in Slice(x, lsb, done + width)
    {
      BytePart(b, low, width, done, i);
      if done <= i < done + width { ValueAt(data, j, i - done + low); }
    }
  }

  /** A byte with some bits replaced. */
  function MergedByte(b: Byte, width: nat, low: nat, v: Bits): Byte
    requires width + low <= 8
  {
    (b - ByteMask(width, low)) + Shl(v * Low(width), low) * ByteMask(width, low)
  }

  lemma {:induction false} MergedBit(b: Byte, width: nat, low: nat, v: Bits, p: nat)
    requires width + low <= 8
    ensures p in MergedByte(b, width, low, v) <==> if low <= p < low + width then p - low in v else p in b
  {
  }

  lemma {:induction false} MergedAt(data: seq<Byte>, j: nat, low: nat, width: nat, v: Bits, k: nat, p: nat)
    requires j < |data| && low + width <= 8 && p < 8
    ensures var at := |data| - 1 - j;
            At(Value(data[at := MergedByte(data[at], width, low, v)]), k, p) <==>
              if k == j && low <= p < low + width then p - low in v else At(Value(data), k, p)
  {
    var at := |data| - 1 - j;
    var merged := data[at := MergedByte(data[at], width, low, v)];
    ValueAt(data, k, p);
    ValueAt(merged, k, p);
    MergedBit(data[at], width, low, v, p);
    if k < |data| && k != j { assert merged[|data| - 1 - k] == data[|data| - 1 - k]; }
  }

  lemma {:induction false} WiderField(x: Bits, lsb: nat, done: nat, width: nat, v: Bits, q: nat)
    ensures q in WithField(x, lsb, done + width, v) <==>
            if lsb + done <= q < lsb + done + width then q - lsb in v else q in WithField(x, lsb, done, v)
  {
    WithFieldBit(x, lsb, done, v, q);
    WithFieldBit(x, lsb, done + width, v, q);
  }

  /** Replacing bits of one byte replaces the next bits of the field. */
  lemma {:induction false} InsertStep(x: Bits, data: seq<Byte>, lsb: nat, done: nat, j: nat, low: nat, width: nat, v: Bits)
    requires j < |data| && low + width <= 8 && lsb + done == 8 * j + low
    requires Value(data) == WithField(x, lsb, done, v)
    ensures var at := |data| - 1 - j;
            Value(data[at := MergedByte(data[at], width, low, Shr(v, done))]) == WithField(x, lsb, done + width, v)
  {
    var at := |data| - 1 - j;
    var merged := data[at := MergedByte(data[at], width, low, Shr(v, done))];
    forall k: nat, p: nat | p < 8
      ensures At(Value(merged), k, p) <==> At(WithField(x, lsb, done + width, v), k, p)
    {
      MergedAt(data, j, low, width, Shr(v, done), k, p);
      WiderField(x, lsb, done, width, v, 8 * k + p);
      if k == j && low <= p < low + width { assert 8 * k + p - lsb == p - low + done; }
    }
    SameBytes(Value(merged), WithField(x, lsb, done + width, v));
  }

  // ----- the routines -----

  /** Reads a bit field byte by byte. The pieces are shifted in a 32-bit int, so the field is at most 31 bits wide. */
  method ExtractBits(data: array<Byte>, msb: nat, width: nat) returns (val: Bits)
    requires width <= msb + 1 <= 8 * data.Length && width <= 31
    ensures val == Slice(Value(data[..]), msb + 1 - width, width)
  {
    val := {};
    var lsb := msb - width + 1;
    NothingExtracted(Value(data[..]), lsb);
    if width == 0 {
      return;
    }
    var byteLow: int := data.Length - lsb / 8 - 1;
    var blsb := lsb % 8;
    var bitsLeft := width;
    var bitsExtracted := 0;
    while bitsLeft > 0
      invariant bitsExtracted + bitsLeft == width
      invariant 0 <= bitsLeft && byteLow < data.Length
      invariant bitsLeft > 0 ==> 0 <= blsb < 8 && lsb + bitsExtracted == 8 * (data.Length - 1 - byteLow) + blsb
      invariant val == Slice(Value(data[..]), lsb, bitsExtracted)
    {
      var bwidth := Min(8 - blsb, bitsLeft);
      val := GetByte(data, byteLow, bwidth, blsb, val, lsb, bitsExtracted);
      blsb := 0;
      bitsLeft := bitsLeft - bwidth;
      bitsExtracted := bitsExtracted + bwidth;
      byteLow := byteLow - 1;
    }
  }

  /** r is x shifted right by n; folded. */
  ghost predicate IsShifted(r: Bits, x: Bits, n: nat) {
    forall t: Token {:trigger Unfold(t)} :: t == Shifted && Unfold(t) ==> r == Shr(x, n)
  }

  /** y is x with bits lsb, ..., lsb + done - 1 replaced by those of v; folded. */
  ghost predicate IsWritten(y: Bits, x: Bits, lsb: nat, done: nat, v: Bits) {
    forall t: Token {:trigger Unfold(t)} :: t == Written && Unfold(t) ==> y == WithField(x, lsb, done, v)
  }

  lemma {:induction false} NotWritten(x: Bits, lsb: nat, v: Bits)
    ensures IsWritten(x, x, lsb, 0, v)
  {
    forall q: nat ensures q in WithField(x, lsb, 0, v) <==> q in x { WithFieldBit(x, lsb, 0, v, q); }
  }

  lemma {:induction false} AllWritten(y: Bits, x: Bits, lsb: nat, width: nat, v: Bits)
    requires IsWritten(y, x, lsb, width, v)
    ensures y == WithField(x, lsb, width, v)
  {
    assert Unfold(Written);
  }

  lemma {:induction false} NotShifted(x: Bits)
    ensures IsShifted(x, x, 0)
  {
    forall i: nat ensures i in Shr(x, 0) <==> i in x { assert i + 0 == i; }
  }

  lemma {:induction false} ShiftedMore(r: Bits, x: Bits, a: nat, b: nat)
    requires IsShifted(r, x, a)
    ensures IsShifted(Shr(r, b), x, a + b)
  {
    assert Unfold(Shifted);
    forall i: nat ensures i in Shr(Shr(x, a), b) <==> i in Shr(x, a + b) { assert i + b + a == i + (a + b); }
  }

  /** Writes the next bits of a field into a byte. */
  method PutByte(data: array<Byte>, byteLow: nat, bwidth: nat, blsb: nat, rest: Bits, ghost x: Bits, ghost lsb: nat, ghost done: nat, ghost val: Bits)
    requires byteLow < data.Length && blsb + bwidth <= 8 && lsb + done == 8 * (data.Length - 1 - byteLow) + blsb
    requires IsWritten(Value(data[..]), x, lsb, done, val) && IsShifted(rest, val, done)
    modifies data
    ensures IsWritten(Value(data[..]), x, lsb, done + bwidth, val)
  {
    ghost var before := data[..];
    assert Unfold(Shifted) && Unfold(Written);
    InsertStep(x, before, lsb, done, data.Length - 1 - byteLow, blsb, bwidth, val);
    data[byteLow] := MergedByte(data[byteLow], bwidth, blsb, rest);
    assert data[..] == before[byteLow := MergedByte(before[byteLow], bwidth, blsb, rest)];
  }

  /** Reads the next bits of a field from a byte. */
  method GetByte(data: array<Byte>, byteLow: nat, bwidth: nat, blsb: nat, val: Bits, ghost lsb: nat, done: nat) returns (longer: Bits)
    requires byteLow < data.Length && blsb + bwidth <= 8 && lsb + done == 8 * (data.Length - 1 - byteLow) + blsb
    requires val == Slice(Value(data[..]), lsb, done)
    ensures longer == Slice(Value(data[..]), lsb, done + bwidth)
  {
    ExtractStep(data[..], lsb, done, data.Length - 1 - byteLow, blsb, bwidth);
    longer := val + Shl(Shr(data[byteLow] * ByteMask(bwidth, blsb), blsb), done);
  }

  /** Writes a bit field byte by byte, leaving all other bits as they are. */
  method InsertBits(data: array<Byte>, msb: nat, width: nat, val: Bits)
    requires width <= msb + 1 <= 8 * data.Length
    modifies data
    ensures Value(data[..]) == WithField(old(Value(data[..])), msb + 1 - width, width, val)
  {
    ghost var x := Value(data[..]);
    var lsb := msb + 1 - width;
    NotWritten(x, lsb, val);
    if width == 0 {
      AllWritten(x, x, lsb, 0, val);
      return;
    }
    var byteLow: int := data.Length - lsb / 8 - 1;
    var blsb := lsb % 8;
    var rest, left := val, width;
    NotShifted(val);
    while left > 0
      invariant 0 <= left <= width && byteLow < data.Length
      invariant left > 0 ==> 0 <= blsb < 8 && lsb + (width - left) == 8 * (data.Length - 1 - byteLow) + blsb
      invariant IsShifted(rest, val, width - left)
      invariant IsWritten(Value(data[..]), x, lsb, width - left, val)
    {
      var bwidth := Min(8 - blsb, left);
      PutByte(data, byteLow, bwidth, blsb, rest, x, lsb, width - left, val);
      ShiftedMore(rest, val, width - left, bwidth);
      rest := Shr(rest, bwidth);
      blsb := 0;
      left := left - bwidth;
      byteLow := byteLow - 1;
    }
    AllWritten(Value(data[..]), x, lsb, width, val);
  }

  lemma {:induction false} NothingExtracted(x: Bits, lsb: nat)
    ensures Slice(x, lsb, 0) == {}
  {
  }

  /** Reading after writing gives the value back, modulo 2^width. */
  method InsertThenExtract(data: array<Byte>, msb: nat, width: nat, val: Bits) returns (read: Bits)
    requires width <= msb + 1 <= 8 * data.Length && width <= 31
    modifies data
    ensures read == val * Low(width)
  {
    ghost var x := Value(data[..]);
    InsertBits(data, msb, width, val);
    FieldOfWith(x, msb + 1 - width, width, val);
    read := ExtractBits(data, msb, width);
  }
}
