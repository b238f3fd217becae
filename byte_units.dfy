/** The unit choice of `bytes_to_human`: the size is divided by 1024 until it is below
    1024 or the unit table is used up. Sizes are exact reals; the rounding of Python's
    float division and the `'{size:.2f}'` rendering of the mantissa are not modelled. */
module ByteUnits {

  /** The unit prefixes in order: bytes, kilo, mega, ..., yotta. */
  const Units: seq<string> := ["", "k", "M", "G", "T", "P", "E", "Z", "Y"]

  /** `v * 1024 ** k`: `v` units of the `k`-th prefix, in bytes. */
  function Scaled(v: real, k: nat): (r: real)
    ensures 0.0 <= v ==> v <= r
  {
    if k == 0 then v else 1024.0 * Scaled(v, k - 1)
  }

  /** The size after `k` rounds of `size /= 1024`: its value in unit `k`. */
  function Shrink(size0: real, k: nat): (r: real)
    ensures 0.0 <= size0 ==> 0.0 <= r <= size0
  {
    if k == 0 then size0 else Shrink(size0, k - 1) / 1024.0
  }

  /** Larger units are larger. */
  lemma {:induction false} ScaledMonotone(v: real, j: nat, k: nat)
    requires 0.0 <= v && j <= k
    ensures Scaled(v, j) <= Scaled(v, k)
    decreases k
  {
    if j < k {
      ScaledMonotone(v, j, k - 1);
    }
  }

  lemma {:induction false} ScaledTimes1024(v: real, k: nat)
    ensures Scaled(1024.0 * v, k) == 1024.0 * Scaled(v, k)
  {
    if k > 0 {
      ScaledTimes1024(v, k - 1);
    }
  }

  lemma {:induction false} ScaledOver1024(v: real, k: nat)
    ensures Scaled(v / 1024.0, k) == Scaled(v, k) / 1024.0
  {
    if k > 0 {
      ScaledOver1024(v, k - 1);
    }
  }

  /** Scaling the value in unit `k` back up gives the size. */
  lemma {:induction false} ShrinkScaled(size0: real, k: nat)
    ensures Scaled(Shrink(size0, k), k) == size0
  {
    if k > 0 {
      ShrinkScaled(size0, k - 1);
      ScaledOver1024(Shrink(size0, k - 1), k - 1);
    }
  }

  /** The value in unit `k` is below `c` exactly when the size is below `c` units of `k`. */
  lemma {:induction false} ShrinkBelow(size0: real, k: nat, c: real)
    ensures Shrink(size0, k) < c <==> size0 < Scaled(c, k)
  {
    if k > 0 {
      ShrinkBelow(size0, k - 1, 1024.0 * c);
      ScaledTimes1024(c, k - 1);
    }
  }

  /** The value in unit `k` is below 1024 exactly when the size is below `1024 ** (k + 1)`. */
  lemma ShrinkBelow1024(size0: real, k: nat)
    ensures Shrink(size0, k) < 1024.0 <==> size0 < Scaled(1.0, k + 1)
  {
    ShrinkBelow(size0, k, 1024.0);
    ScaledTimes1024(1.0, k);
  }

  /** The loop of `bytes_to_human` stops at index `k` with value `size`: every earlier unit
      still left a value of at least 1024; if unit `k` leaves less, that is the value
      printed; otherwise `k` is the last unit, 'Y', and the value printed has been divided
      once more, nine times in all. */
  predicate AsWritten(size0: real, size: real, k: nat) {
    k < |Units|
    && (forall j | 0 <= j < k :: 1024.0 <= Shrink(size0, j))
    && (Shrink(size0, k) < 1024.0 ==> size == Shrink(size0, k))
    && (1024.0 <= Shrink(size0, k) ==> k == |Units| - 1 && size == Shrink(size0, |Units|))
  }

  /** The unit selection of `bytes_to_human(size0)`: the same loop, with `break` where the
      value has dropped below 1024. */
  method SelectUnit(size0: real) returns (size: real, k: nat, suffix: string)
    ensures AsWritten(size0, size, k)
    ensures suffix == Units[k] + "B"
  {
    size, k := size0, 0;
    var i := 0;
    while i < |Units|
      invariant 0 <= i <= |Units| && k == (if i == 0 then 0 else i - 1)
      invariant size == Shrink(size0, i)
      invariant forall j | 0 <= j < i :: 1024.0 <= Shrink(size0, j)
    {
      k := i;
      if size < 1024.0 {
        break;
      }
      size := size / 1024.0;
      i := i + 1;
    }
    suffix := Units[k] + "B";
  }

  /** The index the loop stops at is the least one whose next power of 1024 exceeds the
      size, or 'Y' when none does. */
  lemma AsWrittenIndex(size0: real, size: real, k: nat)
    requires AsWritten(size0, size, k)
    ensures k > 0 ==> Scaled(1.0, k) <= size0
    ensures k < |Units| - 1 ==> size0 < Scaled(1.0, k + 1)
  {
    if k > 0 {
      ShrinkBelow1024(size0, k - 1);
    }
    ShrinkBelow1024(size0, k);
  }

  /** Below `1024 ** 9` the value printed is below 1024 and is the size exactly in the
      unit printed. */
  lemma AsWrittenBelowYotta(size0: real, size: real, k: nat)
    requires AsWritten(size0, size, k) && size0 < Scaled(1.0, |Units|)
    ensures size < 1024.0 && Scaled(size, k) == size0
  {
    if 1024.0 <= Shrink(size0, k) {
      ShrinkBelow1024(size0, |Units| - 1);
    }
    ShrinkScaled(size0, k);
  }

  /** The unit index `bytes_to_human` evidently means, searching from unit `from`: the
      first unit that leaves a value below 1024, or 'Y'. */
  function IntendedIndex(size0: real, from: nat): (k: nat)
    requires from < |Units| && forall j | 0 <= j < from :: 1024.0 <= Shrink(size0, j)
    ensures from <= k < |Units|
    ensures forall j | 0 <= j < k :: 1024.0 <= Shrink(size0, j)
    ensures k < |Units| - 1 ==> Shrink(size0, k) < 1024.0
    decreases |Units| - from
  {
    if from == |Units| - 1 || Shrink(size0, from) < 1024.0 then from
    else IntendedIndex(size0, from + 1)
  }

  /** The value and unit index `bytes_to_human` evidently means: the value printed is the
      value in the unit chosen, also for 'Y'. */
  function IntendedUnit(size0: real): (r: (real, nat))
  {
    var k := IntendedIndex(size0, 0);
    (Shrink(size0, k), k)
  }

  /** The intended value always is the size exactly in its unit. */
  lemma IntendedUnitExact(size0: real)
    ensures Scaled(IntendedUnit(size0).0, IntendedUnit(size0).1) == size0
  {
    ShrinkScaled(size0, IntendedIndex(size0, 0));
  }

  /** The intended value is below 1024 unless the size needs a unit beyond 'Y', and the
      intended unit is never larger than the size. */
  lemma IntendedUnitBelow(size0: real)
    ensures size0 < Scaled(1.0, |Units|) ==> IntendedUnit(size0).0 < 1024.0
    ensures IntendedUnit(size0).1 > 0 ==> Scaled(1.0, IntendedUnit(size0).1) <= size0
  {
    var k := IntendedIndex(size0, 0);
    ShrinkBelow1024(size0, |Units| - 1);
    if k > 0 {
      ShrinkBelow1024(size0, k - 1);
    }
  }

  /** Below `1024 ** 9` the loop as written and the intended choice agree. */
  lemma AgreeBelowYotta(size0: real, size: real, k: nat)
    requires AsWritten(size0, size, k) && size0 < Scaled(1.0, |Units|)
    ensures IntendedUnit(size0) == (size, k)
  {
    AsWrittenBelowYotta(size0, size, k);
    IntendedUnitBelow(size0);
  }

  /** At `size0 == 1024 ** 9` the loop as written prints "1.00YB", that is `1024 ** 8`
      bytes, for a size 1024 times larger; the intended value is 1024 in unit 'Y'. */
  lemma YottaOffByOne(size: real, k: nat)
    requires AsWritten(Scaled(1.0, 9), size, k)
    ensures k == 8 && Units[k] == "Y" && size == 1.0 && Scaled(size, k) != Scaled(1.0, 9)
    ensures IntendedUnit(Scaled(1.0, 9)) == (1024.0, 8)
  {
    var x := Scaled(1.0, 9);
    forall j | 0 <= j < 9
      ensures 1024.0 <= Shrink(x, j)
    {
      ShrinkBelow1024(x, j);
      ScaledMonotone(1.0, j + 1, 9);
    }
    ShrinkScaled(x, 9);
    ShrinkScaled(x, 8);
  }

  /** From `1024 ** 9` on, the loop as written labels 'Y' a value that is the size in
      units of `1024 ** 9`, one unit larger than 'Y' stands for. */
  lemma AsWrittenBeyondYotta(size0: real, size: real, k: nat)
    requires AsWritten(size0, size, k) && Scaled(1.0, |Units|) <= size0
    ensures k == |Units| - 1 && Scaled(size, |Units|) == size0
  {
    ShrinkBelow1024(size0, k);
    if k < |Units| - 1 {
      ScaledMonotone(1.0, k + 1, |Units|);
    }
    ShrinkScaled(size0, |Units|);
  }

  /** The loop renders 0 bytes with no prefix, and 1024 and 1536 bytes as 1 and 1.5 'k'. */
  lemma Examples(size: real, k: nat, size': real, k': nat, size'': real, k'': nat)
    requires AsWritten(0.0, size, k) && AsWritten(1024.0, size', k') && AsWritten(1536.0, size'', k'')
    ensures size == 0.0 && Units[k] == ""
    ensures size' == 1.0 && Units[k'] == "k"
    ensures size'' == 1.5 && Units[k''] == "k"
    ensures IntendedUnit(0.0) == (0.0, 0) && IntendedUnit(1024.0) == (1.0, 1)
  {
    assert Shrink(0.0, 0) == 0.0;
    assert Shrink(1024.0, 1) == 1.0 && Shrink(1536.0, 1) == 1.5;
  }
}
