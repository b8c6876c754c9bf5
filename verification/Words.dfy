/** Unsigned machine words. */
module Words {
  const WORD32: nat := 0x1_0000_0000
  const WORD64: nat := 0x1_0000_0000_0000_0000

  lemma {:induction false} SameRemainder(x: int, q: int)
    ensures (x + q * WORD64) % WORD64 == x % WORD64
    decreases if q < 0 then -q else q
  {
    if q > 0 {
      SameRemainder(x, q - 1);
      assert (x + (q - 1) * WORD64 + WORD64) % WORD64 == (x + (q - 1) * WORD64) % WORD64;
    } else if q < 0 {
      SameRemainder(x, q + 1);
      assert (x + (q + 1) * WORD64 - WORD64) % WORD64 == (x + (q + 1) * WORD64) % WORD64;
    }
  }

  /** Wrapping early or late makes no difference. */
  lemma AddWord(a: int, b: int)
    ensures (a % WORD64 + b) % WORD64 == (a + b) % WORD64
  {
    var q := a / WORD64;
    assert a == q * WORD64 + a % WORD64;
    SameRemainder(a % WORD64 + b, q);
  }
}
