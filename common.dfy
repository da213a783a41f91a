/** Shared vocabulary of the model: optional values, panics, machine words,
    powers of two, bit shifts and saturating time differences. */
module Common {

  datatype Option<+T> = None | Some(value: T)

  /** The outcome of an operation that either returns or panics (an `unwrap`
      or `expect` on a missing value). */
  datatype Checked<+T> = Returns(value: T) | Panics

  function Pow2(n: nat): (r: nat)
    ensures r >= 1
  {
    if n == 0 then 1 else 2 * Pow2(n - 1)
  }

  /** 2^(a+b) = 2^a * 2^b */
  lemma {:induction false} Pow2Add(a: nat, b: nat)
    ensures Pow2(a + b) == Pow2(a) * Pow2(b)
  {
    if a > 0 {
      Pow2Add(a - 1, b);
      assert Pow2(a + b) == 2 * Pow2(a - 1 + b);
    }
  }

  lemma {:induction false} Pow2Monotone(a: nat, b: nat)
    requires a <= b
    ensures Pow2(a) <= Pow2(b)
  {
    if a < b {
      Pow2Monotone(a, b - 1);
    }
  }

  lemma Pow2Small()
    ensures Pow2(0) == 1 && Pow2(1) == 2 && Pow2(2) == 4 && Pow2(3) == 8
    ensures Pow2(4) == 16 && Pow2(5) == 32 && Pow2(8) == 256
  {
    assert Pow2(4) == 16;
    assert Pow2(5) == 32;
    assert Pow2(8) == 256 by {
      assert Pow2(6) == 64;
      assert Pow2(7) == 128;
    }
  }

  const TWO_TO_32: nat := 0x1_0000_0000
  const TWO_TO_64: nat := 0x1_0000_0000_0000_0000

  /** Unsigned machine words, as unbounded integers below 2^bits. */
  type U64 = x: nat | x < TWO_TO_64
  type U32 = x: nat | x < TWO_TO_32

  lemma Pow2Words()
    ensures Pow2(32) == TWO_TO_32 && Pow2(64) == TWO_TO_64
  {
    Pow2Small();
    Pow2Add(8, 8);
    Pow2Add(16, 16);
    Pow2Add(32, 32);
  }

  /** `x >> s` on an unsigned word, for a shift amount below the word width. */
  function Shr(x: nat, s: nat): nat
  {
    if s == 0 then x else Shr(x / 2, s - 1)
  }

  /** Shifting a `width`-bit word right by `width - bits` leaves a value below
      2^bits: the top `bits` bits of the word. */
  lemma {:induction false} ShrTopBits(x: nat, width: nat, bits: nat)
    requires bits <= width && x < Pow2(width)
    ensures Shr(x, width - bits) < Pow2(bits)
  {
    if width > bits {
      assert x / 2 < Pow2(width - 1);
      ShrTopBits(x / 2, width - 1, bits);
    }
  }

  /** `compute_index(hash, bits)`: `hash >> (32 - bits)`, the top `bits` bits
      of a 32-bit hash. With overflow checks the subtraction panics for
      `bits > 32` and the shift panics for `bits == 0`, a shift by the full
      width. */
  function ComputeIndex(hash: U32, bits: nat): (r: Checked<nat>)
    ensures r.Panics? <==> bits == 0 || bits > 32
    ensures r.Returns? ==> r.value < Pow2(bits)
    ensures bits == 32 ==> r == Returns(hash)
  {
    if bits == 0 || bits > 32 then Panics
    else
      Pow2Words();
      ShrTopBits(hash, 32, bits);
      Returns(Shr(hash, 32 - bits))
  }

  /** `Instant::duration_since(earlier)`: the time from `earlier` to `later`,
      saturating at zero when `earlier` is in fact later. */
  function Elapsed(later: nat, earlier: nat): (d: nat)
    ensures later >= earlier ==> d + earlier == later
    ensures later <= earlier ==> d == 0
  {
    if later >= earlier then later - earlier else 0
  }
}
