/** Tables that take a machine word apart into named fields. A word is the set of its one
bits. */
module BitFields {
  import opened RawTypes

  const WORD_BITS := 64

  type Word = w: set<nat> | forall i | i in w :: i < WORD_BITS

  function Run(lo: nat, hi: nat): (r: set<nat>)
    requires lo <= hi
    ensures forall i: nat :: i in r <==> lo <= i < hi
    decreases hi - lo
  {
    if lo == hi then {} else Run(lo, hi - 1) + {hi - 1}
  }

  /** The `width` low bits, all of them when the word has no more. */
  function LowMask(width: nat): Word {
    Run(0, if width >= WORD_BITS then WORD_BITS else width)
  }

  function ShiftedUp(w: Word, distance: nat): Word {
    set i | i in w && i + distance < WORD_BITS :: i + distance
  }

  function ShiftedDown(w: Word, distance: nat): Word {
    set i | i in w && i >= distance :: i - distance
  }

  datatype Render = Uint | Enumerated(table: seq<(Word, nat)>)

  /** A field without a width takes all bits from its shift on. Labels are string refs. */
  datatype Field = Field(name: nat, shift: nat, width: Option<nat>, render: Render)
  {
    function WidthIn(bits: nat): nat {
      if width.Some? then width.value else if shift <= bits then bits - shift else 0
    }
  }

  datatype Decode = Raw | Millis | Bits(fields: seq<Field>)

  // ----- what an accepted table is

  ghost predicate Placed(f: Field, bits: nat) {
    f.shift < bits && f.shift + f.WidthIn(bits) <= bits
  }

  ghost predicate LabelsFit(f: Field, strings: nat, bits: nat) {
    f.render.Enumerated? ==>
      forall k | 0 <= k < |f.render.table| ::
        f.render.table[k].1 < strings && f.render.table[k].0 <= LowMask(f.WidthIn(bits))
  }

  ghost predicate Apart(f: Field, g: Field, bits: nat) {
    f.shift + f.WidthIn(bits) <= g.shift || g.shift + g.WidthIn(bits) <= f.shift
  }

  ghost predicate FieldOk(f: Field, strings: nat, bits: nat) {
    f.name < strings && Placed(f, bits) && LabelsFit(f, strings, bits)
  }

  /** Every field is labelled, lies in the word and holds its values, and no two overlap. */
  ghost predicate Accepted(fields: seq<Field>, n: nat, strings: nat, bits: nat)
    requires n <= |fields|
  {
    && (forall i | 0 <= i < n :: FieldOk(fields[i], strings, bits))
    && (forall i, j | 0 <= i < j < n :: Apart(fields[i], fields[j], bits))
  }

  ghost predicate AllPlaced(fields: seq<Field>, bits: nat) {
    forall i | 0 <= i < |fields| :: Placed(fields[i], bits)
  }

  function Covered(fields: seq<Field>, bits: nat): Word {
    if fields == [] then {}
    else
      var last := fields[|fields| - 1];
      Covered(fields[..|fields| - 1], bits) + ShiftedUp(LowMask(last.WidthIn(bits)), last.shift)
  }

  lemma MaskIsRun(f: Field, bits: nat, i: nat)
    ensures i in ShiftedUp(LowMask(f.WidthIn(bits)), f.shift)
            <==> i < WORD_BITS && f.shift <= i < f.shift + f.WidthIn(bits)
  {
    if i < WORD_BITS && f.shift <= i < f.shift + f.WidthIn(bits) {
      assert i - f.shift in LowMask(f.WidthIn(bits)) && i - f.shift + f.shift == i;
    }
  }

  lemma {:induction false} CoveredHas(fields: seq<Field>, bits: nat, b: nat)
    ensures b in Covered(fields, bits) <==>
            && b < WORD_BITS
            && exists i :: 0 <= i < |fields| && fields[i].shift <= b < fields[i].shift + fields[i].WidthIn(bits)
  {
    if fields != [] {
      var init, last := fields[..|fields| - 1], fields[|fields| - 1];
      CoveredHas(init, bits, b);
      MaskIsRun(last, bits, b);
      if i :| 0 <= i < |init| && init[i].shift <= b < init[i].shift + init[i].WidthIn(bits) {
        assert fields[i] == init[i];
      }
      if i :| 0 <= i < |fields| && fields[i].shift <= b < fields[i].shift + fields[i].WidthIn(bits) {
        assert i < |init| ==> init[i] == fields[i];
      }
    }
  }

  lemma AcceptedPlaced(fields: seq<Field>, n: nat, strings: nat, bits: nat)
    requires n <= |fields| && Accepted(fields, n, strings, bits)
    ensures AllPlaced(fields[..n], bits)
  {
    forall i | 0 <= i < n
      ensures Placed(fields[..n][i], bits)
    {
      assert FieldOk(fields[i], strings, bits);
    }
  }

  /** The machine can shift by where the first `n` fields start. */
  ghost predicate Shiftable(fields: seq<Field>, n: nat)
    requires n <= |fields|
  {
    forall i | 0 <= i < n :: fields[i].shift < WORD_BITS
  }

  /** The mask test finds exactly the fields that overlap an earlier one. */
  lemma OverlapIsMask(fields: seq<Field>, n: nat, bits: nat)
    requires n < |fields| && Shiftable(fields, n + 1)
    requires forall i | 0 <= i <= n :: fields[i].WidthIn(bits) > 0
    ensures Covered(fields[..n], bits) * ShiftedUp(LowMask(fields[n].WidthIn(bits)), fields[n].shift) == {}
            <==> forall i | 0 <= i < n :: Apart(fields[i], fields[n], bits)
  {
    var f := fields[n];
    var mask := ShiftedUp(LowMask(f.WidthIn(bits)), f.shift);
    forall b: nat | b in Covered(fields[..n], bits) && b in mask
      ensures exists i :: 0 <= i < n && !Apart(fields[i], f, bits)
    {
      CoveredHas(fields[..n], bits, b);
      MaskIsRun(f, bits, b);
      var i :| 0 <= i < n && fields[..n][i].shift <= b < fields[..n][i].shift + fields[..n][i].WidthIn(bits);
      assert !Apart(fields[i], f, bits);
    }
    forall i | 0 <= i < n && !Apart(fields[i], f, bits)
      ensures exists b: nat :: b in Covered(fields[..n], bits) * mask
    {
      var b := if fields[i].shift <= f.shift then f.shift else fields[i].shift;
      assert fields[..n][i] == fields[i];
      CoveredHas(fields[..n], bits, b);
      MaskIsRun(f, bits, b);
      assert b in Covered(fields[..n], bits) * mask;
    }
  }

  // ----- the check

  method CheckLabels(f: Field, strings: nat, mask: Word, ghost bits: nat) returns (ok: bool)
    requires mask == LowMask(f.WidthIn(bits))
    ensures ok <==> LabelsFit(f, strings, bits)
  {
    if f.render.Enumerated? {
      var table := f.render.table;
      for k := 0 to |table|
        invariant forall j | 0 <= j < k :: table[j].1 < strings && table[j].0 <= mask
      {
        if table[k].1 >= strings || table[k].0 - mask != {} {
          return false;
        }
        assert table[k].0 <= mask;
      }
    }
    return true;
  }

  lemma CoveredOneMore(fields: seq<Field>, n: nat, bits: nat)
    requires n < |fields|
    ensures Covered(fields[..n + 1], bits)
            == Covered(fields[..n], bits) + ShiftedUp(LowMask(fields[n].WidthIn(bits)), fields[n].shift)
  {
    assert fields[..n + 1][..n] == fields[..n];
  }

  ghost predicate WidthsGiven(fields: seq<Field>) {
    forall i | 0 <= i < |fields| && fields[i].width.Some? :: fields[i].width.value > 0
  }

  /** The `i`th field is the first to start past the machine word, and all was well until then. */
  ghost predicate OverflowsAt(fields: seq<Field>, i: nat, strings: nat, bits: nat) {
    && i < |fields| && Accepted(fields, i, strings, bits) && Shiftable(fields, i)
    && fields[i].name < strings && Placed(fields[i], bits) && fields[i].shift >= WORD_BITS
  }

  /** Tables are accepted exactly when they are non-empty, resolvable, in range and disjoint. There
  is no answer where a shift overflows, which takes a word of more than 64 bits. */
  method CheckScalarDecode(decode: Decode, strings: nat, bits: nat) returns (ok: Option<bool>)
    requires decode.Bits? ==> WidthsGiven(decode.fields)
    ensures !decode.Bits? ==> ok == Some(true)
    ensures decode.Bits? ==>
              (ok == Some(true) <==>
                 && decode.fields != [] && Accepted(decode.fields, |decode.fields|, strings, bits)
                 && Shiftable(decode.fields, |decode.fields|))
    ensures ok == None <==> decode.Bits? && exists i :: OverflowsAt(decode.fields, i, strings, bits)
    ensures bits <= 64 ==> ok.Some?
  {
    if !decode.Bits? {
      return Some(true);
    }
    var fields := decode.fields;
    if fields == [] {
      return Some(false);
    }
    var covered: Word := {};
    for i := 0 to |fields|
      invariant Accepted(fields, i, strings, bits) && Shiftable(fields, i)
      invariant covered == Covered(fields[..i], bits)
    {
      var f := fields[i];
      if f.name >= strings || f.shift >= bits || f.shift + f.WidthIn(bits) > bits {
        assert !FieldOk(fields[i], strings, bits);
        return Some(false);
      }
      if f.shift >= WORD_BITS {
        assert OverflowsAt(fields, i, strings, bits);
        return None;
      }
      WidthsPositive(fields, i, strings, bits);
      OverlapIsMask(fields, i, bits);
      var mask := LowMask(f.WidthIn(bits));
      if covered * ShiftedUp(mask, f.shift) != {} {
        return Some(false);
      }
      covered := covered + ShiftedUp(mask, f.shift);
      var labels := CheckLabels(f, strings, mask, bits);
      if !labels {
        assert !FieldOk(fields[i], strings, bits);
        return Some(false);
      }
      CoveredOneMore(fields, i, bits);
    }
    return Some(true);
  }

  /** Bit `b` of the word is the field's: one of its width from where it starts, or without a width any
  from there on. */
  ghost predicate Has(f: Field, bits: nat, b: nat) {
    f.shift <= b && if f.width.Some? then b < f.shift + f.width.value else b < bits
  }

  ghost predicate OkByBits(f: Field, strings: nat, bits: nat) {
    && f.name < strings && f.shift < bits && (forall b: nat | Has(f, bits, b) :: b < bits)
    && (f.render.Enumerated? ==>
          forall k | 0 <= k < |f.render.table| ::
            f.render.table[k].1 < strings && forall b | b in f.render.table[k].0 :: Has(f, bits, f.shift + b))
  }

  lemma HasIsWidth(f: Field, bits: nat, b: nat)
    requires f.shift <= bits
    ensures Has(f, bits, b) <==> f.shift <= b < f.shift + f.WidthIn(bits)
  {
  }

  lemma OkIsByBits(f: Field, strings: nat, bits: nat)
    requires f.width.Some? ==> f.width.value > 0
    ensures FieldOk(f, strings, bits) <==> OkByBits(f, strings, bits)
  {
    if f.shift < bits {
      forall b: nat
        ensures Has(f, bits, b) <==> f.shift <= b < f.shift + f.WidthIn(bits)
      {
        HasIsWidth(f, bits, b);
      }
      assert Has(f, bits, f.shift + f.WidthIn(bits) - 1);
      forall w: Word
        ensures w <= LowMask(f.WidthIn(bits)) <==> forall b | b in w :: Has(f, bits, f.shift + b)
      {
        assert forall b: nat :: b in LowMask(f.WidthIn(bits)) <==> b < f.WidthIn(bits) && b < WORD_BITS;
      }
    }
  }

  lemma ApartByBits(f: Field, g: Field, bits: nat)
    requires f.shift < bits && g.shift < bits && f.WidthIn(bits) > 0 && g.WidthIn(bits) > 0
    ensures Apart(f, g, bits) <==> forall b: nat :: !(Has(f, bits, b) && Has(g, bits, b))
  {
    forall b: nat
      ensures Has(f, bits, b) <==> f.shift <= b < f.shift + f.WidthIn(bits)
      ensures Has(g, bits, b) <==> g.shift <= b < g.shift + g.WidthIn(bits)
    {
      HasIsWidth(f, bits, b);
      HasIsWidth(g, bits, b);
    }
    if !Apart(f, g, bits) {
      var b := if f.shift < g.shift then g.shift else f.shift;
      assert Has(f, bits, b) && Has(g, bits, b);
    }
  }

  /** An accepted table, bit by bit: every field is labelled, has its bits in the word and holds the
  values it names, and no bit is of two fields. */
  lemma AcceptedByBits(fields: seq<Field>, strings: nat, bits: nat)
    requires WidthsGiven(fields)
    ensures Accepted(fields, |fields|, strings, bits) <==>
            && (forall i | 0 <= i < |fields| :: OkByBits(fields[i], strings, bits))
            && forall i, j, b: nat | 0 <= i < j < |fields| :: !(Has(fields[i], bits, b) && Has(fields[j], bits, b))
  {
    forall i | 0 <= i < |fields|
      ensures FieldOk(fields[i], strings, bits) <==> OkByBits(fields[i], strings, bits)
    {
      OkIsByBits(fields[i], strings, bits);
    }
    if forall i | 0 <= i < |fields| :: OkByBits(fields[i], strings, bits) {
      forall i, j | 0 <= i < j < |fields|
        ensures Apart(fields[i], fields[j], bits)
                <==> forall b: nat :: !(Has(fields[i], bits, b) && Has(fields[j], bits, b))
      {
        assert FieldOk(fields[i], strings, bits) && FieldOk(fields[j], strings, bits);
        ApartByBits(fields[i], fields[j], bits);
      }
    }
  }

  lemma WidthsPositive(fields: seq<Field>, n: nat, strings: nat, bits: nat)
    requires n < |fields| && WidthsGiven(fields) && Accepted(fields, n, strings, bits) && Placed(fields[n], bits)
    ensures forall i | 0 <= i <= n :: fields[i].WidthIn(bits) > 0
  {
    forall i | 0 <= i < n
      ensures fields[i].WidthIn(bits) > 0
    {
      assert FieldOk(fields[i], strings, bits);
    }
  }

  // ----- nothing of a word is lost

  function Extract(w: Word, f: Field, bits: nat): Word {
    ShiftedDown(w, f.shift) * LowMask(f.WidthIn(bits))
  }

  lemma ExtractHas(w: Word, f: Field, bits: nat, b: nat)
    requires bits <= WORD_BITS && Placed(f, bits)
    ensures b in Extract(w, f, bits) <==> b < f.WidthIn(bits) && b + f.shift in w
  {
    if b + f.shift in w {
      assert b + f.shift - f.shift == b;
    }
  }

  /** The word a list of field values and some bits of no field make. */
  function Assemble(fields: seq<Field>, values: seq<Word>, rest: Word): Word
    requires |values| == |fields|
  {
    if fields == [] then rest
    else
      var n := |fields| - 1;
      Assemble(fields[..n], values[..n], rest) + ShiftedUp(values[n], fields[n].shift)
  }

  lemma {:induction false} AssembleHas(fields: seq<Field>, values: seq<Word>, rest: Word, b: nat)
    requires |values| == |fields|
    ensures b in Assemble(fields, values, rest)
            <==> b in rest || exists i :: 0 <= i < |fields| && b in ShiftedUp(values[i], fields[i].shift)
  {
    if fields != [] {
      var n := |fields| - 1;
      AssembleHas(fields[..n], values[..n], rest, b);
      if i :| 0 <= i < n && b in ShiftedUp(values[..n][i], fields[..n][i].shift) {
        assert b in ShiftedUp(values[i], fields[i].shift);
      }
      if i :| 0 <= i < |fields| && b in ShiftedUp(values[i], fields[i].shift) {
        assert i < n ==> b in ShiftedUp(values[..n][i], fields[..n][i].shift);
      }
    }
  }

  lemma ShiftedHas(w: Word, distance: nat, b: nat)
    ensures b in ShiftedUp(w, distance) <==> b < WORD_BITS && b >= distance && b - distance in w
  {
    if b >= distance && b - distance in w && b < WORD_BITS {
      assert b - distance + distance == b;
    }
  }

  ghost function Extracts(w: Word, fields: seq<Field>, bits: nat): (r: seq<Word>)
    ensures |r| == |fields| && forall i | 0 <= i < |fields| :: r[i] == Extract(w, fields[i], bits)
  {
    seq(|fields|, i requires 0 <= i < |fields| => Extract(w, fields[i], bits))
  }

  lemma BitRebuilt(w: Word, fields: seq<Field>, bits: nat, b: nat)
    requires bits <= WORD_BITS && AllPlaced(fields, bits)
    ensures b in Assemble(fields, Extracts(w, fields, bits), w - Covered(fields, bits)) <==> b in w
  {
    var values, rest := Extracts(w, fields, bits), w - Covered(fields, bits);
    AssembleHas(fields, values, rest, b);
    CoveredHas(fields, bits, b);
    forall i | 0 <= i < |fields|
      ensures b in ShiftedUp(values[i], fields[i].shift)
              <==> b in w && fields[i].shift <= b < fields[i].shift + fields[i].WidthIn(bits)
    {
      FieldBit(w, fields[i], bits, b);
    }
  }

  lemma FieldBit(w: Word, f: Field, bits: nat, b: nat)
    requires bits <= WORD_BITS && Placed(f, bits)
    ensures b in ShiftedUp(Extract(w, f, bits), f.shift) <==> b in w && f.shift <= b < f.shift + f.WidthIn(bits)
  {
    ShiftedHas(Extract(w, f, bits), f.shift, b);
    if b >= f.shift {
      ExtractHas(w, f, bits, b - f.shift);
    }
  }

  /** A word is what its fields' values and its uncovered bits make. */
  lemma WordRebuilt(w: Word, fields: seq<Field>, strings: nat, bits: nat)
    requires bits <= WORD_BITS && Accepted(fields, |fields|, strings, bits)
    ensures Assemble(fields, Extracts(w, fields, bits), w - Covered(fields, bits)) == w
  {
    AcceptedPlaced(fields, |fields|, strings, bits);
    assert fields[..|fields|] == fields;
    forall b: nat
      ensures b in Assemble(fields, Extracts(w, fields, bits), w - Covered(fields, bits)) <==> b in w
    {
      BitRebuilt(w, fields, bits, b);
    }
  }

  /** So words with the same field values and the same uncovered bits are one. */
  lemma WordUnique(v: Word, w: Word, fields: seq<Field>, strings: nat, bits: nat)
    requires bits <= WORD_BITS && Accepted(fields, |fields|, strings, bits)
    requires forall i | 0 <= i < |fields| :: Extract(v, fields[i], bits) == Extract(w, fields[i], bits)
    requires v - Covered(fields, bits) == w - Covered(fields, bits)
    ensures v == w
  {
    WordRebuilt(v, fields, strings, bits);
    WordRebuilt(w, fields, strings, bits);
    assert Extracts(v, fields, bits) == Extracts(w, fields, bits);
  }

  /** A bit of field `k` comes from no other field's value. */
  lemma FromItsField(fields: seq<Field>, values: seq<Word>, strings: nat, bits: nat, i: nat, k: nat, at: nat)
    requires Accepted(fields, |fields|, strings, bits) && |values| == |fields| && i < |fields| && k < |fields|
    requires values[i] <= LowMask(fields[i].WidthIn(bits)) && at in ShiftedUp(values[i], fields[i].shift)
    requires fields[k].shift <= at < fields[k].shift + fields[k].WidthIn(bits)
    ensures i == k
  {
    ShiftedHas(values[i], fields[i].shift, at);
    assert at - fields[i].shift in LowMask(fields[i].WidthIn(bits));
    OnlyField(fields, strings, bits, i, k, at);
  }

  lemma BitReadBack(fields: seq<Field>, values: seq<Word>, rest: Word, strings: nat, bits: nat, k: nat, b: nat)
    requires bits <= WORD_BITS && Accepted(fields, |fields|, strings, bits) && AllPlaced(fields, bits)
    requires |values| == |fields| && k < |fields|
    requires forall i | 0 <= i < |fields| :: values[i] <= LowMask(fields[i].WidthIn(bits))
    requires rest * Covered(fields, bits) == {}
    requires b < fields[k].WidthIn(bits)
    ensures b + fields[k].shift in Assemble(fields, values, rest) <==> b in values[k]
  {
    var at := b + fields[k].shift;
    AssembleHas(fields, values, rest, at);
    NotLeftOver(fields, rest, bits, k, at);
    ShiftedHas(values[k], fields[k].shift, at);
    forall i | 0 <= i < |fields| && at in ShiftedUp(values[i], fields[i].shift)
      ensures i == k
    {
      FromItsField(fields, values, strings, bits, i, k, at);
    }
  }

  lemma NotLeftOver(fields: seq<Field>, rest: Word, bits: nat, k: nat, at: nat)
    requires bits <= WORD_BITS && AllPlaced(fields, bits) && k < |fields| && rest * Covered(fields, bits) == {}
    requires fields[k].shift <= at < fields[k].shift + fields[k].WidthIn(bits)
    ensures at < WORD_BITS && at !in rest
  {
    assert Placed(fields[k], bits);
    CoveredHas(fields, bits, at);
    assert at !in rest * Covered(fields, bits);
  }

  /** And the fields of what values make are those values: no field disturbs another. */
  lemma ValuesReadBack(fields: seq<Field>, values: seq<Word>, rest: Word, strings: nat, bits: nat, k: nat)
    requires bits <= WORD_BITS && Accepted(fields, |fields|, strings, bits) && |values| == |fields| && k < |fields|
    requires forall i | 0 <= i < |fields| :: values[i] <= LowMask(fields[i].WidthIn(bits))
    requires rest * Covered(fields, bits) == {}
    ensures Extract(Assemble(fields, values, rest), fields[k], bits) == values[k]
  {
    AcceptedPlaced(fields, |fields|, strings, bits);
    assert fields[..|fields|] == fields;
    var w, f := Assemble(fields, values, rest), fields[k];
    forall b: nat
      ensures b in Extract(w, f, bits) <==> b in values[k]
    {
      ExtractHas(w, f, bits, b);
      if b < f.WidthIn(bits) {
        BitReadBack(fields, values, rest, strings, bits, k, b);
      }
    }
  }

  lemma OnlyField(fields: seq<Field>, strings: nat, bits: nat, i: nat, k: nat, b: nat)
    requires Accepted(fields, |fields|, strings, bits) && i < |fields| && k < |fields|
    requires fields[i].shift <= b < fields[i].shift + fields[i].WidthIn(bits)
    requires fields[k].shift <= b < fields[k].shift + fields[k].WidthIn(bits)
    ensures i == k
  {
    if i != k {
      AnyApart(fields, strings, bits, i, k);
    }
  }

  lemma AnyApart(fields: seq<Field>, strings: nat, bits: nat, i: nat, k: nat)
    requires Accepted(fields, |fields|, strings, bits) && i < |fields| && k < |fields| && i != k
    ensures Apart(fields[i], fields[k], bits)
  {
    var lo, hi := if i < k then i else k, if i < k then k else i;
    assert Apart(fields[lo], fields[hi], bits);
  }
}
