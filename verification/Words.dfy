/** 64-bit words as rows of bytes, or of 7-bit codes. */
module Words {

  type Word = bv64

  type Octet = x: Word | x < 0x100

  // The operations on words, named so that proofs need not look inside them

  function Or(a: Word, b: Word): Word { a | b }

  function And(a: Word, b: Word): Word { a & b }

  function Low8(x: Word): Word { x & 0xff }

  function Down8(x: Word): Word { x >> 8 }

  function Up8(x: Word): Word { x << 8 }

  function Low7(x: Word): Word { x & 0x7f }

  function Down7(x: Word): Word { x >> 7 }

  function Up7(x: Word): Word { x << 7 }

  /** The lowest field, of 8 or of 7 bits. */
  function Low(x: Word, bits: nat): Word {
    if bits == 8 then Low8(x) else Low7(x)
  }

  function Down(x: Word, bits: nat): Word {
    if bits == 8 then Down8(x) else Down7(x)
  }

  function Up(x: Word, bits: nat): Word {
    if bits == 8 then Up8(x) else Up7(x)
  }

  /** (x >> (bits * k)) & (2^bits - 1) */
  function Field(x: Word, bits: nat, k: nat): Word {
    if k == 0 then Low(x, bits) else Field(Down(x, bits), bits, k - 1)
  }

  /** x << (bits * k) */
  function Place(x: Word, bits: nat, k: nat): Word {
    if k == 0 then x else Up(Place(x, bits, k - 1), bits)
  }

  lemma LowBound(x: Word, bits: nat)
    ensures Low(x, bits) < 0x100 && (bits == 7 ==> Low(x, bits) < 0x80)
  {
  }

  lemma {:induction false} FieldBound(x: Word, bits: nat, k: nat)
    ensures Field(x, bits, k) < 0x100 && (bits == 7 ==> Field(x, bits, k) < 0x80)
    decreases k
  {
    hide Low, Down;
    if k == 0 {
      LowBound(x, bits);
    } else {
      FieldBound(Down(x, bits), bits, k - 1);
    }
  }

  lemma OrAssoc(a: Word, b: Word, c: Word)
    ensures Or(Or(a, b), c) == Or(a, Or(b, c))
  {
  }

  lemma OrComm(a: Word, b: Word)
    ensures Or(a, b) == Or(b, a)
  {
  }

  lemma OrSwap(x: Word, a: Word, b: Word)
    ensures Or(Or(x, a), b) == Or(Or(x, b), a)
  {
    hide *;
    OrAssoc(x, a, b);
    OrComm(a, b);
    OrAssoc(x, b, a);
  }

  lemma OrLow8(a: Word, b: Word)
    ensures Low8(Or(a, b)) == Or(Low8(a), Low8(b))
  {
  }

  lemma OrDown8(a: Word, b: Word)
    ensures Down8(Or(a, b)) == Or(Down8(a), Down8(b))
  {
  }

  lemma AndLow8(a: Word, b: Word)
    ensures Low8(And(a, b)) == And(Low8(a), Low8(b))
  {
  }

  lemma AndDown8(a: Word, b: Word)
    ensures Down8(And(a, b)) == And(Down8(a), Down8(b))
  {
  }

  lemma OrLow7(a: Word, b: Word)
    ensures Low7(Or(a, b)) == Or(Low7(a), Low7(b))
  {
  }

  lemma OrDown7(a: Word, b: Word)
    ensures Down7(Or(a, b)) == Or(Down7(a), Down7(b))
  {
  }

  lemma AndLow7(a: Word, b: Word)
    ensures Low7(And(a, b)) == And(Low7(a), Low7(b))
  {
  }

  lemma AndDown7(a: Word, b: Word)
    ensures Down7(And(a, b)) == And(Down7(a), Down7(b))
  {
  }

  lemma Parts(a: Word, b: Word, bits: nat)
    ensures Low(Or(a, b), bits) == Or(Low(a, bits), Low(b, bits))
    ensures Down(Or(a, b), bits) == Or(Down(a, bits), Down(b, bits))
    ensures Low(And(a, b), bits) == And(Low(a, bits), Low(b, bits))
    ensures Down(And(a, b), bits) == And(Down(a, bits), Down(b, bits))
  {
    hide Or, And, Low8, Down8, Low7, Down7;
    if bits == 8 {
      OrLow8(a, b);
      OrDown8(a, b);
      AndLow8(a, b);
      AndDown8(a, b);
    } else {
      OrLow7(a, b);
      OrDown7(a, b);
      AndLow7(a, b);
      AndDown7(a, b);
    }
  }

  lemma Zero(bits: nat)
    ensures Low(0, bits) == 0 && Down(0, bits) == 0
  {
  }

  /** Fields are combined one by one. */
  lemma {:induction false} FieldOr(a: Word, b: Word, bits: nat, k: nat)
    ensures Field(Or(a, b), bits, k) == Or(Field(a, bits, k), Field(b, bits, k))
    ensures Field(And(a, b), bits, k) == And(Field(a, bits, k), Field(b, bits, k))
    decreases k
  {
    hide Low, Down, Or, And;
    Parts(a, b, bits);
    if k > 0 {
      FieldOr(Down(a, bits), Down(b, bits), bits, k - 1);
    }
  }

  lemma {:induction false} NoField(bits: nat, k: nat)
    ensures Field(0, bits, k) == 0
    decreases k
  {
    hide Low, Down;
    Zero(bits);
    if k > 0 {
      NoField(bits, k - 1);
    }
  }

  lemma OrZero(a: Word)
    ensures Or(a, 0) == a && Or(0, a) == a && And(a, 0) == 0
  {
  }

  lemma ShiftBack(x: Word)
    ensures (x << 8) & 0xff == 0 && (x < 0x100000000000000 ==> (x << 8) >> 8 == x)
    ensures (x << 7) & 0x7f == 0 && (x < 0x100000000000000 ==> (x << 7) >> 7 == x)
  {
  }

  /** Below the room needed to move a word up by one more field. */
  predicate Roomy(x: Word) { x < 0x100000000000000 }

  lemma RaisedParts(x: Word)
    ensures Low8(Up8(x)) == 0 && (Roomy(x) ==> Down8(Up8(x)) == x)
    ensures Low7(Up7(x)) == 0 && (Roomy(x) ==> Down7(Up7(x)) == x)
  {
    ShiftBack(x);
  }

  /** A word that has room above can be moved up a field and down again. */
  lemma Raised(x: Word, bits: nat)
    requires bits in {7, 8}
    ensures Low(Up(x, bits), bits) == 0
    ensures Roomy(x) ==> Down(Up(x, bits), bits) == x
  {
    hide Low8, Down8, Up8, Low7, Down7, Up7, Roomy;
    RaisedParts(x);
  }

  lemma Single(x: Word, bits: nat)
    requires bits in {7, 8} && (if bits == 8 then x < 0x100 else x < 0x80)
    ensures Low(x, bits) == x && Down(x, bits) == 0
  {
  }

  predicate Below(x: Word, y: Word) { x < y }

  function Limit(k: nat): Word {
    if k == 0 then 0x100 else Up8(Limit(k - 1))
  }

  lemma Limits(k: nat)
    requires k <= 6
    ensures Limit(k) <= 0x100000000000000 && (k < 6 ==> Limit(k) <= 0x1000000000000)
  {
    assert Limit(1) == 0x10000;
    assert Limit(2) == 0x1000000;
    assert Limit(3) == 0x100000000;
    assert Limit(4) == 0x10000000000;
    assert Limit(5) == 0x1000000000000;
  }

  lemma Up8Below(x: Word, y: Word)
    requires Below(x, y) && y <= 0x1000000000000
    ensures Below(Up8(x), Up8(y))
  {
  }

  lemma Up7Below(x: Word, y: Word)
    requires Below(x, y) && y <= 0x1000000000000
    ensures Below(Up7(x), Up8(y))
  {
  }

  lemma BelowRoomy(x: Word, y: Word)
    requires Below(x, y) && y <= 0x100000000000000
    ensures Roomy(x)
  {
  }

  lemma {:induction false} PlaceBelow(x: Word, bits: nat, k: nat)
    requires Below(x, 0x100) && k <= 6
    ensures Below(Place(x, bits, k), Limit(k)) && Roomy(Place(x, bits, k))
    decreases k
  {
    hide Up8, Up7, Below, Roomy;
    Limits(k);
    if k > 0 {
      Limits(k - 1);
      PlaceBelow(x, bits, k - 1);
      Up8Below(Place(x, bits, k - 1), Limit(k - 1));
      Up7Below(Place(x, bits, k - 1), Limit(k - 1));
    }
    BelowRoomy(Place(x, bits, k), Limit(k));
  }

  /** A value placed in a field is in that field alone. */
  lemma {:induction false} Placed(x: Word, bits: nat, j: nat, k: nat)
    requires bits in {7, 8} && (if bits == 8 then x < 0x100 else x < 0x80) && j < 8
    ensures Field(Place(x, bits, j), bits, k) == if j == k then x else 0
    decreases k
  {
    hide Low, Down, Up;
    if j == 0 {
      Single(x, bits);
      if k > 0 {
        NoField(bits, k - 1);
      }
    } else {
      PlaceBelow(x, bits, j - 1);
      Raised(Place(x, bits, j - 1), bits);
      if k > 0 {
        Placed(x, bits, j - 1, k - 1);
      }
    }
  }

  /** What is left of a word without its k lowest fields. */
  function Rest(x: Word, bits: nat, k: nat): Word {
    if k == 0 then x else Down(Rest(x, bits, k - 1), bits)
  }

  lemma {:induction false} RestOfDown(x: Word, bits: nat, k: nat)
    ensures Rest(Down(x, bits), bits, k) == Rest(x, bits, k + 1)
    decreases k
  {
    hide Down;
    if k > 0 {
      RestOfDown(x, bits, k - 1);
    }
  }

  lemma {:induction false} FieldOfRest(x: Word, bits: nat, k: nat)
    ensures Field(x, bits, k) == Low(Rest(x, bits, k), bits)
    decreases k
  {
    hide Low, Down;
    if k > 0 {
      FieldOfRest(Down(x, bits), bits, k - 1);
      RestOfDown(x, bits, k - 1);
    }
  }

  /** The fields of a word whose remainders are known. */
  lemma Row(w: Word, bits: nat, w1: Word, w2: Word, w3: Word, w4: Word, w5: Word, w6: Word, w7: Word)
    requires Down(w, bits) == w1 && Down(w1, bits) == w2 && Down(w2, bits) == w3 && Down(w3, bits) == w4
    requires Down(w4, bits) == w5 && Down(w5, bits) == w6 && Down(w6, bits) == w7
    ensures Field(w, bits, 0) == Low(w, bits) && Field(w, bits, 1) == Low(w1, bits)
    ensures Field(w, bits, 2) == Low(w2, bits) && Field(w, bits, 3) == Low(w3, bits)
    ensures Field(w, bits, 4) == Low(w4, bits) && Field(w, bits, 5) == Low(w5, bits)
    ensures Field(w, bits, 6) == Low(w6, bits) && Field(w, bits, 7) == Low(w7, bits)
  {
    hide Down, Low, Field;
    assert Rest(w, bits, 1) == w1;
    assert Rest(w, bits, 2) == w2;
    assert Rest(w, bits, 3) == w3;
    assert Rest(w, bits, 4) == w4;
    assert Rest(w, bits, 5) == w5;
    assert Rest(w, bits, 6) == w6;
    assert Rest(w, bits, 7) == w7;
    FieldOfRest(w, bits, 0);
    FieldOfRest(w, bits, 1);
    FieldOfRest(w, bits, 2);
    FieldOfRest(w, bits, 3);
    FieldOfRest(w, bits, 4);
    FieldOfRest(w, bits, 5);
    FieldOfRest(w, bits, 6);
    FieldOfRest(w, bits, 7);
  }

  lemma AndAll(x: Word)
    ensures x < 0x100 ==> And(x, 0xff) == x
    ensures x < 0x80 ==> And(x, 0x7f) == x
  {
  }

  /** A field of a mask keeps its field of a word, or drops it. */
  lemma Masked(x: Word, mask: Word, bits: nat, k: nat)
    requires bits in {7, 8}
    ensures Field(mask, bits, k) == (if bits == 8 then 0xff else 0x7f) ==>
      Field(And(x, mask), bits, k) == Field(x, bits, k)
    ensures Field(mask, bits, k) == 0 ==> Field(And(x, mask), bits, k) == 0
  {
    FieldBound(x, bits, k);
    AndAll(Field(x, bits, k));
    OrZero(Field(x, bits, k));
    hide And, Field;
    FieldOr(x, mask, bits, k);
  }

  const Ones: Word := 0xffffffffffffff

  lemma UpDown(x: Word)
    ensures Down8(Up8(x)) == And(x, Ones) && Low8(Up8(x)) == 0
  {
  }

  // Shifts by more than one field

  lemma ShiftSums(x: Word)
    ensures (x >> 8) >> 8 == x >> 16 && (x >> 16) >> 8 == x >> 24 && (x >> 24) >> 8 == x >> 32
    ensures (x >> 32) >> 8 == x >> 40 && (x >> 40) >> 8 == x >> 48 && (x >> 48) >> 8 == x >> 56
  {
  }

  lemma RestBytes(x: Word)
    ensures Rest(x, 8, 1) == x >> 8 && Rest(x, 8, 2) == x >> 16 && Rest(x, 8, 3) == x >> 24 && Rest(x, 8, 4) == x >> 32
    ensures Rest(x, 8, 5) == x >> 40 && Rest(x, 8, 6) == x >> 48 && Rest(x, 8, 7) == x >> 56
  {
    ShiftSums(x);
  }

  lemma ShiftSums7(x: Word)
    ensures (x >> 7) >> 7 == x >> 14 && (x >> 14) >> 7 == x >> 21 && (x >> 21) >> 7 == x >> 28
    ensures (x >> 28) >> 7 == x >> 35 && (x >> 35) >> 7 == x >> 42 && (x >> 42) >> 7 == x >> 49
  {
  }

  lemma Down7Shifts(x: Word)
    ensures Down7(x) == x >> 7 && Down7(x >> 7) == x >> 14 && Down7(x >> 14) == x >> 21 && Down7(x >> 21) == x >> 28
    ensures Down7(x >> 28) == x >> 35 && Down7(x >> 35) == x >> 42 && Down7(x >> 42) == x >> 49
  {
    ShiftSums7(x);
  }

  lemma RestCodes(x: Word)
    ensures Rest(x, 7, 1) == x >> 7 && Rest(x, 7, 2) == x >> 14 && Rest(x, 7, 3) == x >> 21 && Rest(x, 7, 4) == x >> 28
    ensures Rest(x, 7, 5) == x >> 35 && Rest(x, 7, 6) == x >> 42 && Rest(x, 7, 7) == x >> 49
  {
    Down7Shifts(x);
    hide Down7, Down8;
    assert Rest(x, 7, 1) == Down7(x);
    assert Rest(x, 7, 2) == Down7(x >> 7);
    assert Rest(x, 7, 3) == Down7(x >> 14);
    assert Rest(x, 7, 4) == Down7(x >> 21);
    assert Rest(x, 7, 5) == Down7(x >> 28);
    assert Rest(x, 7, 6) == Down7(x >> 35);
  }

  lemma CodeShifts(x: Word)
    ensures (x >> 8) & 0xff == 0 ==> (x >> 8) & 0x7f == 0
    ensures (x >> 8) & 0xff == 0 && (x >> 16) & 0xff == 0 ==> ((x >> 8) >> 7) & 0x7f == 0
    ensures (x >> 16) & 0xff == 0 && (x >> 24) & 0xff == 0 ==> ((x >> 8) >> 14) & 0x7f == 0
    ensures (x >> 24) & 0xff == 0 && (x >> 32) & 0xff == 0 ==> ((x >> 8) >> 21) & 0x7f == 0
    ensures (x >> 32) & 0xff == 0 && (x >> 40) & 0xff == 0 ==> ((x >> 8) >> 28) & 0x7f == 0
    ensures (x >> 40) & 0xff == 0 && (x >> 48) & 0xff == 0 ==> ((x >> 8) >> 35) & 0x7f == 0
    ensures (x >> 48) & 0xff == 0 && (x >> 56) & 0xff == 0 ==> ((x >> 8) >> 42) & 0x7f == 0
    ensures (x >> 56) & 0xff == 0 ==> ((x >> 8) >> 49) & 0x7f == 0
  {
  }

  lemma WholeRest(x: Word)
    ensures Rest(x, 8, 0) == x && Rest(Down8(x), 7, 0) == Down8(x) == x >> 8
  {
  }

  lemma LowIs(x: Word)
    ensures Low(x, 8) == x & 0xff && Low(x, 7) == x & 0x7f
  {
  }

  /** The 7-bit fields above the first byte lie in two neighbouring bytes. */
  lemma CodeInBytes(x: Word, k: nat)
    requires k < 8 && (k > 0 ==> Field(x, 8, k) == 0) && (k < 7 ==> Field(x, 8, k + 1) == 0)
    ensures Field(Down8(x), 7, k) == 0
  {
    hide *;
    WholeRest(x);
    FieldOfRest(Down8(x), 7, k);
    FieldOfRest(x, 8, k);
    FieldOfRest(x, 8, k + 1);
    RestBytes(x);
    RestCodes(Down8(x));
    LowIs(Rest(x, 8, k));
    LowIs(Rest(x, 8, k + 1));
    LowIs(Rest(Down8(x), 7, k));
    CodeShifts(x);
  }
}
