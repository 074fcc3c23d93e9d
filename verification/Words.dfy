/** Unsigned 64-bit arithmetic on integers. */
module Words {
  import opened Arithmetic

  const WORD: nat := 0x1_0000_0000_0000_0000

  /** Unsigned 64-bit wrap-around. */
  function Wrap(x: int): nat
    decreases if x < 0 then -x else x
  {
    if x < 0 then (if x + WORD < 0 then Wrap(x + WORD) else x + WORD)
    else if x < WORD then x
    else Wrap(x - WORD)
  }

  lemma {:induction false} WrapIsMod(x: int)
    ensures WORD == 0x1_0000_0000_0000_0000 && Wrap(x) == x % WORD
    decreases if x < 0 then -x else x
  {
    if x < 0 {
      AddDivisor(x, WORD);
      if x + WORD < 0 {
        WrapIsMod(x + WORD);
      } else {
        Remainder(x + WORD, WORD);
      }
    } else if x < WORD {
      Remainder(x, WORD);
    } else {
      AddDivisor(x - WORD, WORD);
      WrapIsMod(x - WORD);
    }
  }

  lemma AddDivisor(x: int, d: nat)
    requires d > 0
    ensures (x + d) % d == x % d
  {
    assert x + d == (x / d + 1) * d + x % d;
    QuotientUnique(x / d + 1, x % d, (x + d) / d, (x + d) % d, d);
  }

  lemma Remainder(x: nat, d: nat)
    requires x < d
    ensures x % d == x
  {
    QuotientUnique(0, x, x / d, x % d, d);
  }

  lemma WrapWrap(x: int, y: int)
    ensures Wrap(Wrap(x) + y) == Wrap(x + y)
  {
    WrapIsMod(x);
    WrapIsMod(Wrap(x) + y);
    WrapIsMod(x + y);
  }
}
