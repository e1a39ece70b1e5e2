/**
 The compact node layout: one word holds the right pointer and, in its lowest bit, the
 colour. Node addresses are even, so the two never meet.
 */
module PackedLink {
  import opened Bits

  /** A node address: its lowest bit is free. */
  ghost predicate Address(a: nat) {
    a % 2 == 0 && a < WORD
  }

  lemma MaskedWord(w: nat)
    requires w < WORD
    ensures And(w, Neg(2)) == w - w % 2
    ensures And(w, 1) == w % 2
  {
    assert Power(1) == 2;
    Masked(w, 1);
    LowBits(w, 1);
  }

  lemma OrLowBit(a: nat, b: nat)
    requires a % 2 == 0 && b < 2
    ensures Or(a, b) == a + b
  {
  }

  class Link {
    var word: nat

    ghost predicate Valid()
      reads this
    {
      word < WORD
    }

    constructor ()
      ensures Valid()
    {
      word := 0;
    }

    function RightGet(): (r: nat)
      requires Valid()
      reads this
      ensures Address(r)
    {
      MaskedWord(word);
      And(word, Neg(2))
    }

    function RedGet(): bool
      reads this
    {
      And(word, 1) != 0
    }

    method RightSet(right: nat)
      requires Valid() && Address(right)
      modifies this
      ensures Valid() && RightGet() == right && RedGet() == old(RedGet())
    {
      MaskedWord(word);
      OrLowBit(right, And(word, 1));
      word := Or(right, And(word, 1));
      MaskedWord(word);
    }

    method ColorSet(red: bool)
      requires Valid()
      modifies this
      ensures Valid() && RightGet() == old(RightGet()) && RedGet() == red
    {
      MaskedWord(word);
      var bit := if red then 1 else 0;
      OrLowBit(And(word, Neg(2)), bit);
      word := Or(And(word, Neg(2)), bit);
      MaskedWord(word);
    }

    method RedSet()
      requires Valid()
      modifies this
      ensures Valid() && RightGet() == old(RightGet()) && RedGet()
    {
      OrOne(word);
      MaskedWord(word);
      word := Or(word, 1);
      MaskedWord(word);
    }

    method BlackSet()
      requires Valid()
      modifies this
      ensures Valid() && RightGet() == old(RightGet()) && !RedGet()
    {
      MaskedWord(word);
      word := And(word, Neg(2));
      MaskedWord(word);
    }
  }

  lemma OrOne(w: nat)
    requires w < WORD
    ensures Or(w, 1) == w - w % 2 + 1 < WORD
  {
    assert Or(w / 2, 0) == w / 2;
    assert WORD % 2 == 0;
  }

  /** The word that packs a right pointer and a colour is the only one that unpacks to them. */
  lemma PackingIsUnique(w: nat, v: nat)
    requires w < WORD && v < WORD
    ensures And(w, Neg(2)) == And(v, Neg(2)) && And(w, 1) == And(v, 1) <==> w == v
  {
    MaskedWord(w);
    MaskedWord(v);
  }
}
