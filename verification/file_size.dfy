/**
 Unit selection of `formatFileSize`.

 The source computes the unit index as `floor(log(bytes) / log(1024))` and
 looks it up in a three-entry table. Here the index is the largest `i` with
 `1024^i <= bytes`, computed with integers, and the amount shown is the exact
 quotient `bytes / 1024^i` before its two-decimal rounding. A size of
 `1024^3` bytes or more selects index 3 or higher, past the end of the table:
 JavaScript then yields `undefined`, which the concatenation prints as the
 text "undefined". `FormatFileSize` keeps that behaviour; `FormatFileSizeClamped`
 is the corrected version that never leaves the table.
 */
module FileSize {
  import Naming

  const Kilo: nat := 1024

  /** `['Bytes', 'KB', 'MB']` */
  const Units: seq<string> := ["Bytes", "KB", "MB"]

  function Pow(i: nat): (p: nat)
    ensures p >= 1
  {
    if i == 0 then 1 else Kilo * Pow(i - 1)
  }

  lemma {:induction false} PowMonotone(i: nat, j: nat)
    requires i <= j
    ensures Pow(i) <= Pow(j)
  {
    if i < j {
      PowMonotone(i, j - 1);
    }
  }

  /** The largest `i` with `1024^i <= bytes`: `Math.floor(Math.log(bytes) / Math.log(1024))`. */
  function UnitIndex(bytes: nat): (i: nat)
    requires bytes > 0
    ensures Pow(i) <= bytes < Pow(i + 1)
    decreases bytes
  {
    if bytes < Kilo then 0
    else
      var j := UnitIndex(bytes / Kilo);
      assert Pow(j + 1) == Kilo * Pow(j) <= Kilo * (bytes / Kilo) <= bytes;
      assert bytes < Kilo * (bytes / Kilo + 1) <= Kilo * Pow(j + 1);
      j + 1
  }

  /** The bounds of `UnitIndex` pick out exactly one index. */
  lemma UnitIndexUnique(bytes: nat, i: nat)
    requires Pow(i) <= bytes < Pow(i + 1)
    ensures bytes > 0 && i == UnitIndex(bytes)
  {
    var k := UnitIndex(bytes);
    if i < k {
      PowMonotone(i + 1, k);
    } else if k < i {
      PowMonotone(k + 1, i);
    }
  }

  /** The unit index stays inside the table exactly for sizes below `1024^3`. */
  lemma UnitIndexInTable(bytes: nat)
    requires bytes > 0
    ensures UnitIndex(bytes) < |Units| <==> bytes < Pow(3)
  {
    var i := UnitIndex(bytes);
    if i < |Units| {
      PowMonotone(i + 1, |Units|);
    } else {
      PowMonotone(|Units|, i);
    }
  }

  /** What `formatFileSize` prints: an amount and a unit word. */
  datatype SizeText = SizeText(amount: real, unit: string)

  /** `sizes[i]`: the unit word, or "undefined" past the end of the table. */
  function UnitName(bytes: nat): (u: string)
    requires bytes > 0
    ensures bytes < Pow(3) ==> UnitIndex(bytes) < |Units| && u == Units[UnitIndex(bytes)]
    ensures bytes >= Pow(3) ==> u == Naming.Undefined
  {
    var i := UnitIndex(bytes);
    UnitIndexInTable(bytes);
    if i < |Units| then Units[i] else Naming.Undefined
  }

  /** `bytes / Math.pow(1024, i)`, before rounding to two decimals. */
  function ScaledAmount(bytes: nat): (a: real)
    requires bytes > 0
    ensures a == bytes as real / Pow(UnitIndex(bytes)) as real
    ensures 1.0 <= a < Kilo as real
  {
    var i := UnitIndex(bytes);
    ScaledAmountBounds(bytes, i);
    bytes as real / Pow(i) as real
  }

  /** `formatFileSize(bytes)`, with the amount before rounding to two decimals. */
  function FormatFileSize(bytes: nat): (t: SizeText)
    ensures bytes == 0 ==> t == SizeText(0.0, "Bytes")
    ensures bytes > 0 ==> t.amount == bytes as real / Pow(UnitIndex(bytes)) as real
    ensures 0 < bytes < Pow(3) ==>
              UnitIndex(bytes) < |Units| && t.unit == Units[UnitIndex(bytes)] && 1.0 <= t.amount < Kilo as real
    ensures bytes >= Pow(3) ==> t.unit == Naming.Undefined
  {
    if bytes == 0 then SizeText(0.0, "Bytes")
    else SizeText(ScaledAmount(bytes), UnitName(bytes))
  }

  /** `bytes / 1024^i` lies in [1, 1024) when `i` is the unit index. */
  lemma ScaledAmountBounds(bytes: nat, i: nat)
    requires Pow(i) <= bytes < Pow(i + 1)
    ensures (bytes as real / Pow(i) as real) * Pow(i) as real == bytes as real
    ensures 1.0 <= bytes as real / Pow(i) as real < Kilo as real
  {
    var p := Pow(i) as real;
    var q := bytes as real / p;
    assert q * p == bytes as real;
    assert Pow(i + 1) as real == Kilo as real * p;
  }

  /** 1536 bytes is 1.5 KB. */
  lemma FormatKilobytes()
    ensures FormatFileSize(1536) == SizeText(1.5, "KB")
  {
    UnitIndexUnique(1536, 1);
  }

  /** 1048576 bytes is 1 MB. */
  lemma FormatMegabytes()
    ensures FormatFileSize(1048576) == SizeText(1.0, "MB")
  {
    UnitIndexUnique(1048576, 2);
  }

  /** One GiB already selects index 3, past the three-entry table. */
  lemma GibibyteIsUndefined()
    ensures UnitIndex(1073741824) == 3
    ensures FormatFileSize(1073741824) == SizeText(1.0, Naming.Undefined)
  {
    UnitIndexUnique(1073741824, 3);
  }

  /** The unit index, kept inside the table: sizes past MB stay in MB. */
  function ClampedUnitIndex(bytes: nat): (i: nat)
    requires bytes > 0
    ensures i < |Units|
    ensures Pow(i) <= bytes
    ensures i < |Units| - 1 ==> bytes < Pow(i + 1)
  {
    var j := UnitIndex(bytes);
    if j < |Units| then j
    else
      PowMonotone(|Units| - 1, j);
      |Units| - 1
  }

  /** `formatFileSize` with the table lookup kept in range. */
  function FormatFileSizeClamped(bytes: nat): (t: SizeText)
    ensures t.unit in Units
    ensures bytes == 0 ==> t == SizeText(0.0, "Bytes")
    ensures bytes > 0 ==> t.unit == Units[ClampedUnitIndex(bytes)]
    ensures bytes > 0 ==> t.amount == bytes as real / Pow(ClampedUnitIndex(bytes)) as real && t.amount >= 1.0
    ensures bytes >= Pow(2) ==> t.unit == "MB"
  {
    if bytes == 0 then SizeText(0.0, "Bytes")
    else
      var i := ClampedUnitIndex(bytes);
      var p := Pow(i) as real;
      var amount := bytes as real / p;
      assert amount * p == bytes as real;
      SizeText(amount, Units[i])
  }

  /** Below one GiB the clamped version prints what the source prints. */
  lemma ClampedAgreesBelowGibibyte(bytes: nat)
    requires bytes < Pow(3)
    ensures FormatFileSizeClamped(bytes) == FormatFileSize(bytes)
  {
    if bytes > 0 {
      UnitIndexInTable(bytes);
    }
  }
}
