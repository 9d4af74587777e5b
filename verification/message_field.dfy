/**
 An ARINC 429 message field: a contiguous range of bits of the 32-bit data
 word, given by the 1-indexed position of its least significant bit (`lsb`),
 its width in bits (`size`) and a human-readable `name`. A field packs an
 unsigned value into its bit range and unpacks it from a whole word.
 */
module MessageField {
  import opened Bits
  import opened A429Exception

  /** The largest 32-bit word */
  const MaxWord: nat := 0xFFFF_FFFF

  const LsbTooLow: string := "LSB cannot be lower than 1"
  const ExceedsBit32: string := "Field cannot exceed bit 32"

  /** Python's `abs` */
  function Abs(x: int): (r: nat)
  {
    if x < 0 then -x else x
  }

  /** `((2**size) - 1) << (lsb - 1)`: the word with ones where the field lies */
  function MaskOf(lsb: int, size: nat): (r: nat)
    requires lsb >= 1
  {
    MulMonotone(0, Pow2(size) - 1, Pow2(lsb - 1));
    Shl(Pow2(size) - 1, lsb - 1)
  }

  /**
   A field as the constructor leaves it. The mask is computed once, at
   construction; equality of fields ignores it.
   */
  datatype Field = Field(lsb: int, size: nat, name: string, mask: nat)
  {
    /** What construction guarantees: bits lsb .. lsb+size-1 lie within 1..32, and the mask is cached */
    predicate Valid()
    {
      1 <= lsb && lsb + size <= 33 && mask == MaskOf(lsb, size)
    }

    /** getFootPrint: the word with ones exactly where the field lies */
    function FootPrint(): (r: nat)
      requires Valid()
      ensures r <= MaxWord
      ensures forall i: nat :: Bit(r, i) <==> lsb - 1 <= i < lsb - 1 + size
    {
      MaskFacts(lsb, size);
      mask
    }

    /** unpack: the value held in the field's bits of a 32-bit word */
    function Unpack(word: int): (r: Result<nat>)
      requires Valid()
      ensures word < 0 ==> r == Err(MsgRangeError(name, 0, word))
      ensures word > MaxWord ==> r == Err(MsgRangeError(name, MaxWord, word))
      ensures 0 <= word <= MaxWord ==>
                r.Ok? && r.value < Pow2(size) && r.value == (word / Pow2(lsb - 1)) % Pow2(size)
    {
      if word < 0 then
        Err(MsgRangeError(name, 0, word))
      else if word > MaxWord then
        Err(MsgRangeError(name, MaxWord, word))
      else
        UnpackValue(this, word);
        Ok(Shr(And(word, mask), lsb - 1))
    }

    /** pack: the word holding value in the field's bits and zero elsewhere */
    function Pack(value: int): (r: Result<nat>)
      requires Valid()
      ensures r.Ok? <==> 0 <= value < Pow2(size)
      ensures (value > Pow2(size) - 1 || value < -(Pow2(size) - 1)) ==>
                r == Err(MsgRangeError(name, Pow2(size) - 1, value))
      ensures -(Pow2(size) - 1) <= value < 0 ==> r == Err(MsgRangeError(name, 0, value))
      ensures r.Ok? ==> r.value == value * Pow2(lsb - 1)
      ensures r.Ok? ==> r.value <= MaxWord && And(r.value, mask) == r.value
    {
      if Abs(value) > Pow2(size) - 1 then
        Err(MsgRangeError(name, Pow2(size) - 1, value))
      else if value < 0 then
        Err(MsgRangeError(name, 0, value))
      else
        PackFacts(this, value);
        Ok(Shl(value, lsb - 1))
    }

    /** `==`: same lsb, same size and same name */
    function Equals(other: Field): (r: bool)
      ensures r <==> lsb == other.lsb && size == other.size && name == other.name
    {
      lsb == other.lsb && size == other.size && other.name == name
    }

    /** `!=`: the negation of `==` */
    function NotEquals(other: Field): (r: bool)
      ensures r <==> lsb != other.lsb || size != other.size || name != other.name
    {
      !Equals(other)
    }
  }

  /** The Field constructor: validates the bit range, then caches the mask */
  function NewField(lsb: int, size: nat, name: string): (r: Result<Field>)
    ensures r.Ok? <==> 1 <= lsb && lsb + size <= 33
    ensures lsb < 1 ==> r == Err(MsgStructureError(LsbTooLow))
    ensures 1 <= lsb && lsb + size > 33 ==> r == Err(MsgStructureError(ExceedsBit32))
    ensures r.Ok? ==> r.value.Valid() && r.value.lsb == lsb && r.value.size == size && r.value.name == name
  {
    if lsb < 1 then
      Err(MsgStructureError(LsbTooLow))
    else if lsb + size > 33 then
      Err(MsgStructureError(ExceedsBit32))
    else
      Ok(Field(lsb, size, name, MaskOf(lsb, size)))
  }

  // ---------------------------------------------------------------------------
  // Proofs

  /** The mask fits 32 bits */
  lemma MaskBound(lsb: int, size: nat)
    requires 1 <= lsb && lsb + size <= 33
    ensures MaskOf(lsb, size) <= MaxWord
  {
    ShiftedBelow(Pow2(size) - 1, size, lsb - 1);
    Pow2Monotone(size + lsb - 1, 32);
    Pow2At31And32();
  }

  /** The mask has exactly size contiguous one-bits, the lowest being word bit lsb, and fits 32 bits */
  lemma MaskFacts(lsb: int, size: nat)
    requires 1 <= lsb && lsb + size <= 33
    ensures MaskOf(lsb, size) <= MaxWord
    ensures forall i: nat :: Bit(MaskOf(lsb, size), i) <==> lsb - 1 <= i < lsb - 1 + size
  {
    var k: nat := lsb - 1;
    MaskBound(lsb, size);
    forall i: nat
      ensures Bit(MaskOf(lsb, size), i) <==> k <= i < k + size
    {
      BitOfShl(Pow2(size) - 1, k, i);
      if k <= i {
        BitOfLowOnes(size, i - k);
      }
    }
  }

  /** `(w & mask) >> (lsb - 1)` is the arithmetic value of bits lsb .. lsb+size-1 of w */
  lemma UnpackValue(f: Field, w: nat)
    requires f.Valid()
    ensures Shr(And(w, f.mask), f.lsb - 1) == Shr(w, f.lsb - 1) % Pow2(f.size)
  {
    var k: nat := f.lsb - 1;
    AndShifted(w, Pow2(f.size) - 1, k);
    AndLowOnes(Shr(w, k), f.size);
    ShlThenShr(Shr(w, k) % Pow2(f.size), k);
  }

  /** A packed in-range value lies inside the mask and within 32 bits */
  lemma PackFacts(f: Field, v: nat)
    requires f.Valid() && v < Pow2(f.size)
    ensures Shl(v, f.lsb - 1) <= MaxWord
    ensures And(Shl(v, f.lsb - 1), f.mask) == Shl(v, f.lsb - 1)
  {
    PackBound(f, v);
    PackInMask(f, v);
  }

  lemma PackBound(f: Field, v: nat)
    requires f.Valid() && v < Pow2(f.size)
    ensures Shl(v, f.lsb - 1) <= MaxWord
  {
    MaskBound(f.lsb, f.size);
    ShiftedBelow(v, f.size, f.lsb - 1);
  }

  lemma PackInMask(f: Field, v: nat)
    requires f.Valid() && v < Pow2(f.size)
    ensures Shl(v, f.lsb - 1) >= 0
    ensures And(Shl(v, f.lsb - 1), f.mask) == Shl(v, f.lsb - 1)
  {
    var k: nat := f.lsb - 1;
    var ones: nat := Pow2(f.size) - 1;
    MulMonotone(0, v, Pow2(k));
    var x: nat := Shl(v, k);
    assert f.mask == Shl(ones, k);
    AndShifted(x, ones, k);
    assert And(x, f.mask) == Shl(And(Shr(x, k), ones), k);
    ShlThenShr(v, k);
    assert Shr(x, k) == v;
    AndLowOnes(v, f.size);
    DivModUnique(v, Pow2(f.size), 0, v);
    assert And(v, ones) == v;
  }

  /** Bit j of an unpacked value is word bit lsb + j, for j below the field's size, and clear above */
  lemma UnpackBits(f: Field, w: int, j: nat)
    requires f.Valid() && 0 <= w <= MaxWord
    ensures f.Unpack(w).Ok?
    ensures Bit(f.Unpack(w).value, j) <==> j < f.size && Bit(w, f.lsb - 1 + j)
  {
    var k: nat := f.lsb - 1;
    MaskFacts(f.lsb, f.size);
    BitOfShr(And(w, f.mask), k, j);
    BitOfAnd(w, f.mask, j + k);
  }

  /** Packing then unpacking gives back every value the field can hold */
  lemma UnpackOfPack(f: Field, v: int)
    requires f.Valid() && 0 <= v < Pow2(f.size)
    ensures f.Pack(v).Ok?
    ensures f.Unpack(f.Pack(v).value) == Ok(v)
  {
    var k: nat := f.lsb - 1;
    ShlThenShr(v, k);
  }

  /** Unpacking then packing keeps exactly the field's bits of the word */
  lemma PackOfUnpack(f: Field, w: int)
    requires f.Valid() && 0 <= w <= MaxWord
    ensures f.Unpack(w).Ok?
    ensures f.Pack(f.Unpack(w).value) == Ok(And(w, f.mask))
  {
    var k: nat := f.lsb - 1;
    AndShifted(w, Pow2(f.size) - 1, k);
    AndLowOnes(Shr(w, k), f.size);
  }

  /** For constructed fields, `==` is structural equality: the cached mask never tells two equal fields apart */
  lemma EqualsIsStructural(a: Field, b: Field)
    requires a.Valid() && b.Valid()
    ensures a.Equals(b) <==> a == b
    ensures a.NotEquals(b) <==> a != b
  {
  }

  /** The boundary cases of the constructor */
  lemma NewFieldBoundaries(name: string)
    ensures NewField(32, 1, name).Ok? && NewField(32, 1, name).value.FootPrint() == 0x8000_0000
    ensures NewField(32, 2, name) == Err(MsgStructureError(ExceedsBit32))
    ensures NewField(0, 1, name) == Err(MsgStructureError(LsbTooLow))
    ensures NewField(1, 32, name).Ok? && NewField(1, 32, name).value.FootPrint() == MaxWord
  {
    Pow2At31And32();
  }
}
