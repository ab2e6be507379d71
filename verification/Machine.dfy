/** Fixed-width integers of the firmware and the wrap-around comparisons built on them. */
module Machine {
  const TWO_31: int := 0x8000_0000
  const TWO_32: int := 0x1_0000_0000
  const UINT32_MAX: int := 0xFFFF_FFFF
  const INT32_MAX: int := 0x7FFF_FFFF

  type u8 = x: int | 0 <= x < 0x100
  type u16 = x: int | 0 <= x < 0x1_0000
  type u32 = x: int | 0 <= x < TWO_32

  datatype Option<+T> = None | Some(value: T)

  /** The value a 32-bit register holds when the true value is `x`. */
  function Wrap32(x: nat): (r: u32) {
    x % TWO_32
  }

  function Add32(a: u32, b: u32): (r: u32) {
    if a + b < TWO_32 then a + b else a + b - TWO_32
  }

  function Sub32(a: u32, b: u32): (r: u32) {
    if a >= b then a - b else a - b + TWO_32
  }

  /** `(int32_t)(now - deadline) >= 0` */
  predicate Reached(now: u32, deadline: u32) {
    Sub32(now, deadline) < TWO_31
  }

  /** `(int32_t)(candidate - reference) > 0` */
  predicate Newer(candidate: u32, reference: u32) {
    0 < Sub32(candidate, reference) < TWO_31
  }

  /** The wrap-around increment that never yields 0, used for generations and log sequences. */
  function NextNonZero(x: u32): (r: u32) {
    if x == UINT32_MAX then 1 else x + 1
  }

  /** Adding in registers is adding in truth and then wrapping. */
  lemma AddIsWrapped(t: nat, d: u32)
    ensures Add32(Wrap32(t), d) == Wrap32(t + d)
  {
    var q := t / TWO_32;
    assert t == q * TWO_32 + Wrap32(t);
    if Wrap32(t) + d < TWO_32 {
      assert t + d == q * TWO_32 + (Wrap32(t) + d);
    } else {
      assert t + d == (q + 1) * TWO_32 + (Wrap32(t) + d - TWO_32);
    }
  }

  /** Subtracting registers gives the true distance while that distance fits 32 bits. */
  lemma SubIsDistance(t: nat, s: nat)
    requires s <= t < s + TWO_32
    ensures Sub32(Wrap32(t), Wrap32(s)) == t - s
  {
    AddIsWrapped(s, t - s);
  }

  /** The signed comparison is the true one while the two instants are less than 2^31 apart. */
  lemma ReachedIsTrueOrder(t: nat, due: nat)
    requires due - TWO_31 <= t < due + TWO_31
    ensures Reached(Wrap32(t), Wrap32(due)) <==> t >= due
  {
    if t >= due {
      SubIsDistance(t, due);
    } else {
      SubIsDistance(due, t);
    }
  }

  lemma SmallIsUnwrapped(x: nat)
    requires x < TWO_32
    ensures Wrap32(x) == x
  {
  }

  lemma WrapOfSum(a: nat, b: nat)
    ensures Wrap32(a + Wrap32(b)) == Wrap32(a + b)
  {
    var q := b / TWO_32;
    assert b == q * TWO_32 + Wrap32(b);
    assert a + b == q * TWO_32 + (a + Wrap32(b));
  }
}
