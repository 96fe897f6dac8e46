/** Unsigned 32-bit words, and the casts between them and ints. */
module AlsaWords {
  type word = x: int | 0 <= x < 0x1_0000_0000

  function Signed(w: word): int {
    if w < 0x8000_0000 then w else w - 0x1_0000_0000
  }

  function Unsigned(i: int): word {
    i % 0x1_0000_0000
  }

  lemma SignedBack(i: int)
    requires -0x8000_0000 <= i < 0x8000_0000
    ensures Signed(Unsigned(i)) == i
  {
    assert Unsigned(i) == if i >= 0 then i else i + 0x1_0000_0000;
  }
}
