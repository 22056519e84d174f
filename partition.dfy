/** The two ways the solvers split `total` rows (or columns) among `parts`
    workers: the floor rule `total*k/parts` of the MPI solvers, and the equal
    split `total/parts` of the thread solver. `BandBegin` takes the product
    unbounded; `BandBeginU32` takes it in 32-bit unsigned arithmetic, as the
    solvers do, and the two agree while `total*parts` fits in 32 bits. */
module Partition {
  import opened Arith

  /** Where band k begins under the floor rule. */
  function BandBegin(total: nat, k: nat, parts: nat): nat
    requires parts > 0
  {
    total * k / parts
  }

  /** The modulus of the solvers' `unsigned` arithmetic. */
  const WordSize: nat := 0x1_0000_0000

  /** The floor rule as the solvers evaluate it: `total*k` is an unsigned
      32-bit product, so it wraps before the division. */
  function BandBeginU32(total: nat, k: nat, parts: nat): nat
    requires parts > 0
  {
    (total * k % WordSize) / parts
  }

  /** While `total*parts` fits in 32 bits no product `total*k` with
      k <= parts wraps, and the 32-bit rule is the floor rule. */
  lemma U32BeginAgrees(total: nat, k: nat, parts: nat)
    requires parts > 0 && k <= parts && total * parts < WordSize
    ensures BandBeginU32(total, k, parts) == BandBegin(total, k, parts)
  {
    MulAddRight(k, parts - k, total);
    MulNonneg(parts - k, total);
    DivUnique(total * k, WordSize, 0, total * k);
  }

  /** Once `total*parts` reaches 2^32 the product wraps: with 2^20 rows on
      4096 ranks the last band begins at row 0xFFF00 but ends at row 0, so
      its unsigned row count `end - begin` wraps as well. */
  lemma U32LastEndWraps()
    ensures BandBeginU32(0x10_0000, 4095, 4096) == 0xF_FF00 == BandBegin(0x10_0000, 4095, 4096)
    ensures BandBeginU32(0x10_0000, 4096, 4096) == 0
    ensures BandBegin(0x10_0000, 4096, 4096) == 0x10_0000
  {
  }

  /** Band beginnings never decrease. */
  lemma BeginMonotone(total: nat, k: nat, l: nat, parts: nat)
    requires parts > 0 && k <= l
    ensures BandBegin(total, k, parts) <= BandBegin(total, l, parts)
  {
    var a := total * k;
    var b := total * l;
    assert b - a == total * (l - k);
    DivMonotone(a, b, parts);
  }

  /** The first band begins at 0 and the last one ends at `total`. */
  lemma BeginEnds(total: nat, parts: nat)
    requires parts > 0
    ensures BandBegin(total, 0, parts) == 0
    ensures BandBegin(total, parts, parts) == total
  {
    DivUnique(total * parts, parts, total, 0);
  }

  /** Every band holds `total/parts` rows or one more, so sizes differ by at
      most one. */
  lemma BandSize(total: nat, k: nat, parts: nat)
    requires parts > 0
    ensures total / parts <= BandBegin(total, k + 1, parts) - BandBegin(total, k, parts) <= total / parts + 1
  {
    var a := total * k;
    var q, r := a / parts, a % parts;
    var s, u := total / parts, total % parts;
    assert a + total == (q + s) * parts + (r + u);
    assert total * (k + 1) == a + total;
    if r + u < parts {
      DivUnique(a + total, parts, q + s, r + u);
    } else {
      DivUnique(a + total, parts, q + s + 1, r + u - parts);
    }
  }

  /** Rows in `[BandBegin(m-1), ...)`: every row below the beginning of band m
      lies in some band before m. */
  lemma {:induction false} OwnedBelow(total: nat, parts: nat, m: nat, row: nat)
    requires parts > 0 && m <= parts && row < BandBegin(total, m, parts)
    ensures exists k: nat :: k < m && BandBegin(total, k, parts) <= row < BandBegin(total, k + 1, parts)
  {
    BeginEnds(total, parts);
    if BandBegin(total, m - 1, parts) <= row {
      assert BandBegin(total, m - 1, parts) <= row < BandBegin(total, (m - 1) + 1, parts);
    } else {
      OwnedBelow(total, parts, m - 1, row);
    }
  }

  /** The floor-rule bands cover `[0, total)`: every row lies in some band
      (and, by `BandsDisjoint`, in only one). */
  lemma EveryRowOwned(total: nat, parts: nat, row: nat)
    requires parts > 0 && row < total
    ensures exists k: nat :: k < parts && BandBegin(total, k, parts) <= row < BandBegin(total, k + 1, parts)
  {
    BeginEnds(total, parts);
    OwnedBelow(total, parts, parts, row);
  }

  /** Two bands holding the same row are the same band. */
  lemma BandsDisjoint(total: nat, parts: nat, k: nat, l: nat, row: nat)
    requires parts > 0
    requires BandBegin(total, k, parts) <= row < BandBegin(total, k + 1, parts)
    requires BandBegin(total, l, parts) <= row < BandBegin(total, l + 1, parts)
    ensures k == l
  {
    if k < l {
      BeginMonotone(total, k + 1, l, parts);
    } else if l < k {
      BeginMonotone(total, l + 1, k, parts);
    }
  }

  /** The equal split of the thread solver: `parts` bands of `total/parts`
      rows cover only `parts*(total/parts)` rows, and the `total % parts` rows
      after them belong to no band. */
  lemma EqualSplitDropsRemainder(total: nat, parts: nat)
    requires parts > 0
    ensures parts * (total / parts) + total % parts == total
    ensures total % parts > 0 ==> parts * (total / parts) < total
  {
  }

  /** The band beginnings climb from the first entry to the last. */
  predicate Ordered(b: seq<int>) {
    forall j, l :: 0 <= j <= l < |b| ==> b[j] <= b[l]
  }

  /** The band beginnings of the floor partition, `total*j/parts` for
      j = 0 .. parts: they climb from 0 to total. */
  function Begins(total: nat, parts: nat): (b: seq<nat>)
    requires parts > 0
    ensures |b| == parts + 1
    ensures forall j :: 0 <= j <= parts ==> b[j] == BandBegin(total, j, parts)
    ensures b[0] == 0 && b[parts] == total && Ordered(b)
  {
    BeginEnds(total, parts);
    BeginsClimb(total, parts);
    seq(parts + 1, j requires 0 <= j <= parts => BandBegin(total, j, parts))
  }

  /** `BeginMonotone` for every pair of band indices. */
  lemma BeginsClimb(total: nat, parts: nat)
    requires parts > 0
    ensures forall j, l :: 0 <= j <= l <= parts ==> BandBegin(total, j, parts) <= BandBegin(total, l, parts)
  {
    forall j, l | 0 <= j <= l <= parts
      ensures BandBegin(total, j, parts) <= BandBegin(total, l, parts)
    {
      BeginMonotone(total, j, l, parts);
    }
  }
}
