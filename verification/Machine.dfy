/** Fixed-width machine arithmetic: bytes, 32-bit unsigned words, and the wrapping millisecond clock. */
module Machine {

  type byte = x: int | 0 <= x < 0x100
  type uint16 = x: int | 0 <= x < 0x1_0000
  type uint32 = x: int | 0 <= x < 0x1_0000_0000
  type uint64 = x: int | 0 <= x < 0x1_0000_0000_0000_0000

  const WRAP: nat := 0x1_0000_0000

  // What millis() reports at true uptime t (in ms): the counter wraps every 2^32 ms.
  function Millis(t: nat): uint32 {
    t % WRAP
  }

  // Unsigned 32-bit subtraction.
  function Sub32(a: uint32, b: uint32): uint32 {
    if a >= b then a - b else a - b + WRAP
  }

  // A duration computed from two wrapped stamps never exceeds the true duration,
  // and is exact as long as less than one full wrap lies between them.
  lemma ElapsedSound(t: nat, s: nat)
    requires s <= t
    ensures Sub32(Millis(t), Millis(s)) <= t - s
    ensures t - s < WRAP ==> Sub32(Millis(t), Millis(s)) == t - s
  {
    var q, p := t / WRAP, s / WRAP;
    assert t == q * WRAP + Millis(t) && s == p * WRAP + Millis(s);
    assert q >= p;
    if t - s < WRAP {
      assert q - p <= 1;
    }
  }
}
