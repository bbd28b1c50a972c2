/** Discriminant constants as narrow as their form spelled them, widened once the tag's type is
known. */
module Discriminants {
  import opened RawTypes
  import opened Arithmetic

  function Pow2(n: nat): (r: nat)
    ensures r > 0
  {
    if n == 0 then 1 else 2 * Pow2(n - 1)
  }

  lemma {:induction false} Pow2Sum(a: nat, b: nat)
    ensures Pow2(a + b) == Pow2(a) * Pow2(b)
    decreases b
  {
    if b > 0 {
      Pow2Sum(a, b - 1);
      assert a + b - 1 == a + (b - 1);
      assert Pow2(a) * (2 * Pow2(b - 1)) == 2 * (Pow2(a) * Pow2(b - 1));
    }
  }

  const BITS := 128

  predicate IsWidth(width: nat) {
    width in {1, 2, 4, 8, 16}
  }

  /** A pattern of a word of `word` values, read as a signed number. */
  function SignedIn(bits: nat, word: nat): int {
    if 2 * bits < word then bits else bits - word
  }

  function AsSigned(bits: nat): int {
    SignedIn(bits, Pow2(BITS))
  }

  /** A number kept as a 128-bit pattern. */
  function AsUnsigned(n: int): nat {
    n % Pow2(BITS)
  }

  /** An arithmetic shift right rounds down. */
  function ShiftedRight(n: int, distance: nat): int {
    n / Pow2(distance)
  }

  /** The number a constant names: its bits, read in two's complement where it is signed. */
  function ValueOf(d: DiscrBits, signed: bool): int
    requires IsWidth(d.width)
  {
    if signed then
      var shift := BITS - 8 * d.width;
      ShiftedRight(AsSigned(d.bits * Pow2(shift) % Pow2(BITS)), shift)
    else
      AsSigned(d.bits)
  }

  /** The bits a tag of `tagSize` bytes holds when it selects the constant. */
  function TagBits(d: DiscrBits, signed: bool, tagSize: nat): nat
    requires IsWidth(d.width)
  {
    var value := AsUnsigned(ValueOf(d, signed));
    if tagSize < 16 then value % Pow2(8 * tagSize) else value
  }

  // ----- numbers of a width

  /** What a width can spell: a two's complement range, or one from zero. */
  ghost predicate Representable(n: int, width: nat, signed: bool)
    requires width > 0
  {
    if signed then 0 <= n + Pow2(8 * width - 1) < 2 * Pow2(8 * width - 1) else 0 <= n < Pow2(8 * width)
  }

  function Spell(n: int, width: nat): DiscrBits {
    DiscrBits(n % Pow2(8 * width), width)
  }

  lemma Halves(width: nat)
    requires width > 0
    ensures Pow2(8 * width) == 2 * Pow2(8 * width - 1)
  {
  }

  lemma SpelledBits(n: int, width: nat, signed: bool)
    requires width > 0 && Representable(n, width, signed)
    ensures n % Pow2(8 * width) == if n >= 0 then n else n + Pow2(8 * width)
  {
    Halves(width);
    var w := Pow2(8 * width);
    if n >= 0 {
      Remainder(n, 0, w, n);
    } else {
      NegativeRemainder(n, w);
    }
  }

  /** Shifting up and back down keeps the low bits and spreads the sign. */
  lemma Spreads(bits: nat, w: nat, s: nat, t: nat)
    requires s > 0 && t == w * s && bits < w
    ensures SignedIn(bits * s % t, t) / s == SignedIn(bits, w)
  {
    Scaled(bits, w, s);
    Remainder(bits * s, 0, t, bits * s);
    assert 2 * bits * s == 2 * (bits * s);
    if 2 * bits < w {
      Scaled(2 * bits, w, s);
      Exact(bits, s);
    } else {
      assert w * s <= 2 * bits * s;
      assert bits * s - t == (bits - w) * s;
      Exact(bits - w, s);
    }
  }

  lemma SignExtends(bits: nat, width: nat)
    requires IsWidth(width) && bits < Pow2(8 * width)
    ensures ValueOf(DiscrBits(bits, width), true) == SignedIn(bits, Pow2(8 * width))
  {
    var shift := BITS - 8 * width;
    Pow2Sum(8 * width, shift);
    Spreads(bits, Pow2(8 * width), Pow2(shift), Pow2(BITS));
  }

  /** Widening gives back the number spelled, for every signed number of every width. */
  lemma SignedValue(n: int, width: nat)
    requires IsWidth(width) && Representable(n, width, true)
    ensures ValueOf(Spell(n, width), true) == n
  {
    Halves(width);
    SpelledBits(n, width, true);
    SignExtends(n % Pow2(8 * width), width);
  }

  /** And for every unsigned one, but for those of full width a signed 128-bit number cannot
  hold. */
  lemma UnsignedValue(n: int, width: nat)
    requires IsWidth(width) && Representable(n, width, false)
    ensures ValueOf(Spell(n, width), false) == n <==> 2 * n < Pow2(128)
    ensures AsUnsigned(ValueOf(Spell(n, width), false)) == n
  {
    SpelledBits(n, width, false);
    WidthWithin(width);
    Wraps(n, Pow2(BITS));
  }

  lemma Wraps(n: nat, word: nat)
    requires n < word
    ensures SignedIn(n, word) % word == n
    ensures SignedIn(n, word) == n <==> 2 * n < word
  {
    Remainder(n, 0, word, n);
    Remainder(n - word, -1, word, n);
  }

  lemma WidthWithin(width: nat)
    requires IsWidth(width)
    ensures Pow2(8 * width) <= Pow2(BITS)
  {
    Pow2Grows(8 * width, BITS);
  }

  lemma {:induction false} Pow2Grows(a: nat, b: nat)
    requires a <= b
    ensures Pow2(a) <= Pow2(b)
    decreases b
  {
    if a < b {
      Pow2Grows(a, b - 1);
    }
  }

  // ----- tags

  /** As a pattern, the number named is the number spelled modulo the full word. */
  lemma PatternOf(n: int, width: nat, signed: bool)
    requires IsWidth(width) && Representable(n, width, signed)
    ensures AsUnsigned(ValueOf(Spell(n, width), signed)) == n % Pow2(BITS)
  {
    if signed {
      SignedValue(n, width);
    } else {
      UnsignedValue(n, width);
      WidthWithin(width);
      Remainder(n, 0, Pow2(BITS), n);
    }
  }

  lemma Truncated(n: int, tagSize: nat)
    requires tagSize < 16
    ensures n % Pow2(BITS) % Pow2(8 * tagSize) == n % Pow2(8 * tagSize)
  {
    Pow2Sum(BITS - 8 * tagSize, 8 * tagSize);
    ModOfMod(n, Pow2(BITS), Pow2(8 * tagSize), Pow2(BITS - 8 * tagSize));
  }

  /** The tag bits of a constant are its number modulo what the tag can hold. */
  lemma TagIsModulo(n: int, width: nat, signed: bool, tagSize: nat)
    requires IsWidth(width) && Representable(n, width, signed) && tagSize <= 16
    ensures TagBits(Spell(n, width), signed, tagSize) == n % Pow2(8 * tagSize)
  {
    PatternOf(n, width, signed);
    if tagSize < 16 {
      Truncated(n, tagSize);
    }
  }

  /** Distinct constants a tag can hold select it by distinct bits. */
  lemma TagsDiffer(m: int, n: int, v: nat, w: nat, signed: bool, tagSize: nat)
    requires IsWidth(v) && IsWidth(w) && 0 < tagSize <= 16
    requires Representable(m, v, signed) && Representable(n, w, signed)
    requires Representable(m, tagSize, signed) && Representable(n, tagSize, signed)
    ensures TagBits(Spell(m, v), signed, tagSize) == TagBits(Spell(n, w), signed, tagSize) <==> m == n
  {
    TagIsModulo(m, v, signed, tagSize);
    TagIsModulo(n, w, signed, tagSize);
    SpelledBits(m, tagSize, signed);
    SpelledBits(n, tagSize, signed);
    Halves(tagSize);
  }

  // ----- selecting a variant

  datatype DiscrValue = Value(bits: nat) | Range(lo: nat, hi: nat)

  predicate Selects(v: DiscrValue, raw: nat) {
    match v
    case Value(bits) => bits == raw
    case Range(lo, hi) => lo <= raw <= hi
  }

  predicate Matches(values: seq<DiscrValue>, raw: nat) {
    exists i :: 0 <= i < |values| && Selects(values[i], raw)
  }

  /** A variant of one constant matches exactly the tags that hold its number. */
  lemma MatchesItsOwn(m: int, v: nat, n: int, signed: bool, tagSize: nat)
    requires IsWidth(v) && 0 < tagSize <= 16
    requires Representable(m, v, signed) && Representable(m, tagSize, signed) && Representable(n, tagSize, signed)
    ensures Matches([Value(TagBits(Spell(m, v), signed, tagSize))], n % Pow2(8 * tagSize)) <==> m == n
  {
    var values := [Value(TagBits(Spell(m, v), signed, tagSize))];
    TagIsModulo(m, v, signed, tagSize);
    SpelledBits(m, tagSize, signed);
    SpelledBits(n, tagSize, signed);
    Halves(tagSize);
    assert Matches(values, n % Pow2(8 * tagSize)) <==> Selects(values[0], n % Pow2(8 * tagSize));
  }

  /** A range of constants on one side of zero matches exactly the tags that hold a number between
  them; one that reaches over zero matches none. */
  lemma MatchesRange(lo: int, v: nat, hi: int, w: nat, n: int, signed: bool, tagSize: nat)
    requires IsWidth(v) && IsWidth(w) && 0 < tagSize <= 16 && lo <= hi
    requires Representable(lo, v, signed) && Representable(hi, w, signed)
    requires Representable(lo, tagSize, signed) && Representable(hi, tagSize, signed)
    requires Representable(n, tagSize, signed)
    ensures var values := [Range(TagBits(Spell(lo, v), signed, tagSize), TagBits(Spell(hi, w), signed, tagSize))];
            Matches(values, n % Pow2(8 * tagSize)) <==> lo <= n <= hi && !(lo < 0 <= hi)
  {
    var values := [Range(TagBits(Spell(lo, v), signed, tagSize), TagBits(Spell(hi, w), signed, tagSize))];
    TagIsModulo(lo, v, signed, tagSize);
    TagIsModulo(hi, w, signed, tagSize);
    SpelledBits(lo, tagSize, signed);
    SpelledBits(hi, tagSize, signed);
    SpelledBits(n, tagSize, signed);
    Halves(tagSize);
    assert Matches(values, n % Pow2(8 * tagSize)) <==> Selects(values[0], n % Pow2(8 * tagSize));
  }

  /** Several values match what any of them does. */
  lemma MatchesAny(values: seq<DiscrValue>, more: seq<DiscrValue>, raw: nat)
    ensures Matches(values + more, raw) <==> Matches(values, raw) || Matches(more, raw)
  {
    var all := values + more;
    if i :| 0 <= i < |values| && Selects(values[i], raw) {
      assert Selects(all[i], raw);
    }
    if i :| 0 <= i < |more| && Selects(more[i], raw) {
      assert Selects(all[|values| + i], raw);
    }
    if i :| 0 <= i < |all| && Selects(all[i], raw) {
      assert if i < |values| then Selects(values[i], raw) else Selects(more[i - |values|], raw);
    }
  }
}
