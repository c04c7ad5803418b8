/** The bit-mask macros of the game: a cell is a 32-bit unsigned value and every
    sub-field is read and written through one of these five operations.
    The C macros update their first argument in place; here they return the
    updated value, and the properties of each are stated as lemmas. */
module Bitmask {

  /** A mask with exactly one bit set. */
  predicate SingleBit(b: bv32) {
    b != 0 && b & (b - 1) == 0
  }

  /** The single bit `b` is set in `x`. */
  predicate HasBit(x: bv32, b: bv32) {
    x & b != 0
  }

  /** Every single bit of `m` is also a bit of `x`: the meaning of an
      all-bits test, stated bit by bit. */
  ghost predicate AllBitsOf(x: bv32, m: bv32) {
    forall b: bv32 :: SingleBit(b) && HasBit(m, b) ==> HasBit(x, b)
  }

  /** Bit number i of x is one, read by shifting it down rather than by
      masking. */
  predicate BitAt(x: bv32, i: nat)
    requires i < 32
  {
    (x >> i) % 2 == 1
  }

  /** BIT(x): the mask whose only set bit is bit number x. */
  function Bit(x: nat): bv32
    requires x < 32
  {
    1 << x
  }

  /** BITMASK_SET */
  function Set(x: bv32, m: bv32): bv32 {
    x | m
  }

  /** BITMASK_CLEAR */
  function Clear(x: bv32, m: bv32): bv32 {
    x & !m
  }

  /** BITMASK_FLIP */
  function Flip(x: bv32, m: bv32): bv32 {
    x ^ m
  }

  /** BITMASK_CHECK */
  predicate Check(x: bv32, m: bv32) {
    x & m == m
  }

  /** BIT(x) is a mask with a single bit. */
  lemma BitIsSingle(x: nat)
    requires x < 32
    ensures SingleBit(Bit(x))
  {
  }

  /** `after` holds every bit of `m` and agrees with `before` outside `m`. */
  predicate TurnedOn(after: bv32, before: bv32, m: bv32) {
    after & m == m && after & !m == before & !m
  }

  /** `after` holds no bit of `m` and agrees with `before` outside `m`. */
  predicate TurnedOff(after: bv32, before: bv32, m: bv32) {
    after & m == 0 && after & !m == before & !m
  }

  /** `after` is `before` with exactly the bits of `m` inverted. */
  predicate Inverted(after: bv32, before: bv32, m: bv32) {
    after & m == !before & m && after & !m == before & !m
  }

  /** After BITMASK_SET every bit of the mask is present; the bits outside
      the mask are those of the original value. */
  lemma SetSpec(x: bv32, m: bv32)
    ensures TurnedOn(Set(x, m), x, m)
  {
    SetInside(x, m);
    SetOutside(x, m);
  }

  /** After BITMASK_CLEAR no bit of the mask is present; the bits outside
      the mask are those of the original value. */
  lemma ClearSpec(x: bv32, m: bv32)
    ensures TurnedOff(Clear(x, m), x, m)
  {
    ClearInside(x, m);
    ClearOutside(x, m);
  }

  /** BITMASK_FLIP inverts the bits of the mask and keeps the others. */
  lemma FlipSpec(x: bv32, m: bv32)
    ensures Inverted(Flip(x, m), x, m)
  {
    FlipInside(x, m);
    FlipOutside(x, m);
  }

  // One bit-vector fact per lemma: the solver settles each alone at once,
  // but not two of them in one proof obligation.

  lemma SetInside(x: bv32, m: bv32)
    ensures Set(x, m) & m == m
  {
  }

  lemma SetOutside(x: bv32, m: bv32)
    ensures Set(x, m) & !m == x & !m
  {
  }

  lemma ClearInside(x: bv32, m: bv32)
    ensures Clear(x, m) & m == 0
  {
  }

  lemma ClearOutside(x: bv32, m: bv32)
    ensures Clear(x, m) & !m == x & !m
  {
  }

  lemma FlipInside(x: bv32, m: bv32)
    ensures Flip(x, m) & m == !x & m
  {
  }

  lemma FlipOutside(x: bv32, m: bv32)
    ensures Flip(x, m) & !m == x & !m
  {
  }

  /** Flipping twice with the same mask gives back the original value. */
  lemma FlipTwice(x: bv32, m: bv32)
    ensures Flip(Flip(x, m), m) == x
  {
  }

  /** The lowest set bit of a non-zero value. */
  lemma LowestBit(d: bv32) returns (b: bv32)
    requires d != 0
    ensures SingleBit(b) && Check(d, b)
  {
    b := d & -d;
  }

  lemma MissingBit(x: bv32, m: bv32, b: bv32)
    requires SingleBit(b) && Check(m & !x, b)
    ensures HasBit(m, b) && !HasBit(x, b)
  {
  }

  lemma CheckedBit(x: bv32, m: bv32, b: bv32)
    requires Check(x, m) && HasBit(m, b) && SingleBit(b)
    ensures HasBit(x, b)
  {
  }

  /** BITMASK_CHECK is the all-bits test: it holds exactly when every single
      bit of `m` is present in `x`. */
  lemma CheckIsAllBits(x: bv32, m: bv32)
    ensures Check(x, m) <==> AllBitsOf(x, m)
  {
    if !Check(x, m) {
      var b := LowestBit(m & !x);
      MissingBit(x, m, b);
    } else {
      forall b: bv32 | SingleBit(b) && HasBit(m, b)
        ensures HasBit(x, b)
      {
        CheckedBit(x, m, b);
      }
    }
  }

  /** Sharing some bit with the mask is not enough for BITMASK_CHECK. */
  lemma CheckNotMerelySome()
    ensures HasBit(0x10, 0x30) && !Check(0x10, 0x30)
  {
  }
}
