/** `DirSize.Format` (main.go:115-138): a report row is the entry's name padded with
    spaces to the column width, then the byte count scaled to one of the binary units
    B, K, M, G, T, P. */
module SizeFormat {
  import opened Wrappers
  import opened Text

  /** One entry of the report: a base name and a byte count. */
  datatype DirSize = DirSize(name: string, size: nat)

  /** The unit suffixes, each 1024 times the one before. */
  const Units: seq<string> := ["B", "K", "M", "G", "T", "P"]

  function Pow2(k: nat): (r: nat)
    ensures r >= 1
  {
    if k == 0 then 1 else 2 * Pow2(k - 1)
  }

  lemma {:induction false} Pow2Add(a: nat, b: nat)
    ensures Pow2(a + b) == Pow2(a) * Pow2(b)
    decreases b
  {
    if b > 0 {
      Pow2Add(a, b - 1);
      assert Pow2(a + b) == 2 * (Pow2(a) * Pow2(b - 1));
    }
  }

  /** The number of bytes in unit `i` of `Units`: 1024^i. */
  function UnitSize(i: nat): (r: nat)
    ensures r >= 1
  {
    if i == 0 then 1 else 1024 * UnitSize(i - 1)
  }

  /** Unit `i` is `10 * i` bits: 1024^i is 2^(10 * i). */
  lemma {:induction false} UnitSizeIsPow2(i: nat)
    ensures UnitSize(i) == Pow2(10 * i)
  {
    if i > 0 {
      UnitSizeIsPow2(i - 1);
      Pow2Add(10 * (i - 1), 10);
      assert Pow2(10) == 1024;
    }
  }

  /** `size >> (10 * i)` on a non-negative integer: the byte count expressed in unit `i`,
      rounded down. */
  function Shifted(size: nat, i: nat): (r: nat) {
    var unit := UnitSize(i);
    DivisionNonNegative(size, unit);
    size / unit
  }

  lemma DivisionNonNegative(x: nat, d: nat)
    requires d > 0
    ensures x / d >= 0
  {
  }

  /** `Shifted` is the right shift by `10 * i` bits: division by 2^(10 * i). */
  lemma ShiftedIsShift(size: nat, i: nat)
    ensures Shifted(size, i) == size / Pow2(10 * i)
  {
    UnitSizeIsPow2(i);
  }

  lemma DivisionUnique(x: nat, d: nat, q: nat, r: nat)
    requires d > 0 && x == d * q + r && r < d
    ensures x / d == q
  {
    var q', r' := x / d, x % d;
    assert x == d * q' + r';
    if q' > q {
      MulAtLeast(d, q' - q);
    } else if q' < q {
      MulAtLeast(d, q - q');
    }
  }

  lemma MulAtLeast(d: nat, k: nat)
    requires k >= 1
    ensures d * k >= d
  {
  }

  lemma MulBelow(a: nat, r: nat, b: nat)
    requires r <= b
    ensures a * r <= a * b
  {
    assert a * b - a * r == a * (b - r);
  }

  /** Going up one unit divides the value by 1024. */
  lemma ShiftedStep(x: nat, i: nat)
    ensures Shifted(x, i + 1) == Shifted(x, i) / 1024
  {
    var a := UnitSize(i);
    var q, r := x / a, x % a;
    var q2, r2 := q / 1024, q % 1024;
    assert x == (1024 * a) * q2 + (a * r2 + r) by {
      calc {
        x;
        a * q + r;
        a * (1024 * q2 + r2) + r;
        (1024 * a) * q2 + (a * r2 + r);
      }
    }
    MulBelow(a, r2, 1023);
    DivisionUnique(x, 1024 * a, q2, a * r2 + r);
  }

  /** A value in a larger unit is never larger. */
  lemma {:induction false} ShiftedMonotone(x: nat, i: nat, j: nat)
    requires i <= j
    ensures Shifted(x, j) <= Shifted(x, i)
  {
    if i < j {
      ShiftedMonotone(x, i, j - 1);
      ShiftedStep(x, j - 1);
    }
  }

  /** `formated_value` at index `i`: the byte count expressed in the unit after `Units[i]`. */
  function NextUnitValue(size: nat, i: nat): (r: nat) {
    Shifted(size, i + 1)
  }

  /** The unit chosen for a byte count: the value printed, the index of its unit in
      `Units`, and whether it is printed right-justified in a 6-wide field. */
  datatype Rendering = Rendering(value: nat, unit: nat, padded: bool)

  /** The scan over the units from index `i` on: look at the value in the NEXT unit;
      below 1, print the current unit; below 999, print the next unit; otherwise go
      on. The last unit is printed unpadded. */
  function Scan(size: nat, i: nat): (r: Rendering)
    requires i < |Units|
    ensures i <= r.unit < |Units|
    ensures !r.padded ==> r.unit == |Units| - 1
    decreases |Units| - i
  {
    if i + 1 == |Units| then Rendering(Shifted(size, i), i, false)
    else if NextUnitValue(size, i) < 1 then Rendering(Shifted(size, i), i, true)
    else if NextUnitValue(size, i) < 999 then Rendering(NextUnitValue(size, i), i + 1, true)
    else Scan(size, i + 1)
  }

  /** The value the scan prints is the byte count shifted to the chosen unit. */
  lemma {:induction false} ScanValue(size: nat, i: nat)
    requires i < |Units|
    ensures Scan(size, i).value == Shifted(size, Scan(size, i).unit)
    decreases |Units| - i
  {
    if i + 1 < |Units| && NextUnitValue(size, i) >= 999 {
      ScanValue(size, i + 1);
    }
  }

  function Render(size: nat): (r: Rendering) {
    Scan(size, 0)
  }

  /** What `Format` appends after the padded name for a chosen rendering. */
  function SizeField(r: Rendering): (f: string)
    requires r.unit < |Units|
  {
    " " + (if r.padded then PadLeft(Decimal(r.value), 6) else Decimal(r.value)) + Units[r.unit]
  }

  /** The row for `ds` in a column `width` wide (no shorter than the name). */
  function Row(ds: DirSize, width: nat): (row: string)
    requires |ds.name| <= width
  {
    ds.name + Spaces(width - |ds.name|) + SizeField(Render(ds.size))
  }

  /** What `Format` returns; `None` is the panic of `strings.Repeat` on a negative count. */
  function FormatSpec(ds: DirSize, width: int): (out: Option<string>) {
    if width < |ds.name| then None else Some(Row(ds, width))
  }

  /** `DirSize.Format`: pad the name, then scan the units with early exits. */
  method Format(ds: DirSize, biggestLen: int) returns (out: Option<string>)
    ensures out == FormatSpec(ds, biggestLen)
  {
    var nSpaces := biggestLen - |ds.name|;
    if nSpaces < 0 {
      return None;
    }
    var padded := ds.name + Spaces(nSpaces);
    var field := "";
    var i := 0;
    while i < |Units|
      invariant i < |Units|
      invariant Scan(ds.size, i) == Render(ds.size)
      decreases |Units| - i
    {
      if i + 1 == |Units| {
        field := " " + Decimal(Shifted(ds.size, i)) + Units[i];
        assert field == SizeField(Scan(ds.size, i));
        break;
      }
      var formatted := NextUnitValue(ds.size, i);
      if formatted < 1 {
        field := " " + PadLeft(Decimal(Shifted(ds.size, i)), 6) + Units[i];
        assert field == SizeField(Scan(ds.size, i));
        break;
      }
      if formatted < 999 {
        field := " " + PadLeft(Decimal(formatted), 6) + Units[i + 1];
        assert field == SizeField(Scan(ds.size, i));
        break;
      }
      i := i + 1;
    }
    return Some(padded + field);
  }

  /** When no index from `i` up to `j` has stopped the scan and index `j` does, the scan
      stops at `j` with the unit its two bounds select. */
  lemma {:induction false} ScanStopsAt(size: nat, i: nat, j: nat)
    requires i <= j < |Units| - 1
    requires NextUnitValue(size, j) < 999
    requires forall k :: i <= k < j ==> NextUnitValue(size, k) >= 999
    ensures Scan(size, i) == if NextUnitValue(size, j) >= 1
                             then Rendering(NextUnitValue(size, j), j + 1, true)
                             else Rendering(Shifted(size, j), j, true)
    decreases j - i
  {
    if i < j {
      assert NextUnitValue(size, i) >= 999;
      ScanStopsAt(size, i + 1, j);
    }
  }

  /** The unit choice, stated through the first index `i` below 5 whose next-unit value
      is under 999: at least 1 prints that value with unit `i + 1`, otherwise the value
      in unit `i` is printed. */
  lemma RenderFirstFit(size: nat, i: nat)
    requires i < |Units| - 1
    requires NextUnitValue(size, i) < 999
    requires forall k :: 0 <= k < i ==> NextUnitValue(size, k) >= 999
    ensures Render(size) == if NextUnitValue(size, i) >= 1
                            then Rendering(NextUnitValue(size, i), i + 1, true)
                            else Rendering(Shifted(size, i), i, true)
  {
    ScanStopsAt(size, 0, i);
  }

  lemma {:induction false} ScanTopTier(size: nat, i: nat)
    requires i < |Units|
    requires forall k :: i <= k < |Units| - 1 ==> NextUnitValue(size, k) >= 999
    ensures Scan(size, i) == Rendering(Shifted(size, 5), 5, false)
    decreases |Units| - i
  {
    if i + 1 < |Units| {
      assert NextUnitValue(size, i) >= 999;
      ScanTopTier(size, i + 1);
    }
  }

  lemma {:induction false} ScanUnpadded(size: nat, i: nat)
    requires i < |Units|
    requires !Scan(size, i).padded
    ensures Shifted(size, 5) >= 999 || i == |Units| - 1
    decreases |Units| - i
  {
    if i + 1 < |Units| {
      ScanUnpadded(size, i + 1);
    }
  }

  /** The unpadded last tier P is reached exactly when the value in P is at least 999;
      it then prints `size >> 50` with unit P. */
  lemma RenderTopTier(size: nat)
    ensures !Render(size).padded <==> Shifted(size, 5) >= 999
    ensures Shifted(size, 5) >= 999 ==> Render(size) == Rendering(Shifted(size, 5), 5, false)
  {
    if Shifted(size, 5) >= 999 {
      forall k | 0 <= k < |Units| - 1
        ensures NextUnitValue(size, k) >= 999
      {
        ShiftedMonotone(size, k + 1, 5);
      }
      ScanTopTier(size, 0);
    } else if !Render(size).padded {
      ScanUnpadded(size, 0);
    }
  }

  lemma {:induction false} ScanBounds(size: nat, i: nat)
    requires i < |Units|
    requires i == 0 || Shifted(size, i) >= 999
    ensures Scan(size, i).padded ==> Scan(size, i).value < 1024
    ensures !Scan(size, i).padded ==> Scan(size, i).value >= 999
    ensures size > 0 ==> Scan(size, i).value >= 1
    decreases |Units| - i
  {
    if i + 1 == |Units| {
    } else if NextUnitValue(size, i) < 1 {
      ShiftedStep(size, i);
    } else if NextUnitValue(size, i) >= 999 {
      ScanBounds(size, i + 1);
    }
  }

  /** The printed value is the byte count shifted to the chosen unit; outside the top
      tier it is at most 1023, in the top tier at least 999, and it is zero only for an
      empty size. */
  lemma RenderBounds(size: nat)
    ensures Render(size).value == Shifted(size, Render(size).unit)
    ensures Render(size).padded ==> Render(size).value <= 1023
    ensures !Render(size).padded ==> Render(size).value >= 999
    ensures Render(size).value == 0 <==> size == 0
  {
    ScanValue(size, 0);
    ScanBounds(size, 0);
    if size == 0 {
      assert Shifted(size, Render(size).unit) == 0;
    }
  }

  /** Byte counts below 1024 and only those are printed in bytes, unscaled. */
  lemma RenderBytes(size: nat)
    ensures Render(size).unit == 0 <==> size < 1024
    ensures size < 1024 ==> Render(size) == Rendering(size, 0, true)
  {
    if size < 1024 {
      assert Shifted(size, 0) == size;
      assert NextUnitValue(size, 0) == 0;
    } else {
      assert NextUnitValue(size, 0) >= 1;
    }
  }

  /** Below 1024 bytes the row is the padded name, a space, the count right-justified in
      six columns, and `B`. */
  lemma FormatBytes(ds: DirSize, width: int)
    requires |ds.name| <= width && ds.size < 1024
    ensures FormatSpec(ds, width)
            == Some(ds.name + Spaces(width - |ds.name|) + " " + PadLeft(Decimal(ds.size), 6) + "B")
  {
    RenderBytes(ds.size);
    assert Units[0] == "B";
    var head, number := ds.name + Spaces(width - |ds.name|), PadLeft(Decimal(ds.size), 6);
    assert SizeField(Render(ds.size)) == " " + number + "B";
    assert FormatSpec(ds, width) == Some(head + SizeField(Render(ds.size)));
    assert head + (" " + number + "B") == head + " " + number + "B";
  }

  /** The size field starts with a space and ends with the printed value in decimal and
      the unit letter. */
  lemma SizeFieldShape(r: Rendering)
    requires r.unit < |Units|
    ensures var f, digits := SizeField(r), Decimal(r.value);
      && |f| >= 2 + |digits|
      && f[0] == ' '
      && f[|f| - 1 - |digits|..|f| - 1] == digits
      && f[|f| - 1] == Units[r.unit][0]
  {
    var digits := Decimal(r.value);
    var number := if r.padded then PadLeft(digits, 6) else digits;
    assert |Units[r.unit]| == 1;
    var f := " " + number + Units[r.unit];
    assert f == SizeField(r);
    PadLeftShape(digits, 6);
    assert number[|number| - |digits|..] == digits;
    assert f[|f| - 1 - |digits|..|f| - 1] == number[|number| - |digits|..];
  }

  /** The layout of a row: the name, blanks up to and including column `width`, and at
      the end the decimal digits of the value followed by the unit letter. */
  predicate LaidOut(row: string, name: string, width: nat, digits: string, unit: char) {
    && |name| <= width
    && |row| >= width + 2 + |digits|
    && row[..|name|] == name
    && (forall k :: |name| <= k <= width ==> row[k] == ' ')
    && row[|row| - 1 - |digits|..|row| - 1] == digits
    && row[|row| - 1] == unit
  }

  /** The row is `None` (the `strings.Repeat` panic) exactly when the width is below the
      name's length. Otherwise it starts with the name, is blank up to and including
      column `width`, and ends with the printed value in decimal and the unit letter. */
  lemma FormatShape(ds: DirSize, width: int)
    ensures FormatSpec(ds, width).None? <==> width < |ds.name|
    ensures FormatSpec(ds, width).Some? ==>
      LaidOut(FormatSpec(ds, width).value, ds.name, width,
              Decimal(Render(ds.size).value), Units[Render(ds.size).unit][0])
  {
    if width >= |ds.name| {
      var r := Render(ds.size);
      var head := ds.name + Spaces(width - |ds.name|);
      var f := SizeField(r);
      assert FormatSpec(ds, width).value == head + f;
      SizeFieldShape(r);
      RowShape(ds.name, width, f, Decimal(r.value));
    }
  }

  lemma RowShape(name: string, width: nat, f: string, digits: string)
    requires |name| <= width
    requires |f| >= 2 + |digits| && f[0] == ' '
    requires f[|f| - 1 - |digits|..|f| - 1] == digits
    ensures LaidOut(name + Spaces(width - |name|) + f, name, width, digits, f[|f| - 1])
  {
    var head := name + Spaces(width - |name|);
    var row := head + f;
    SpacesBlank(width - |name|);
    assert |head| == width;
    assert row[..|name|] == head[..|name|] == name;
    assert forall k :: |name| <= k < width ==> row[k] == head[k] == ' ';
    assert row[width] == f[0];
    assert row[|row| - 1 - |digits|..|row| - 1] == f[|f| - 1 - |digits|..|f| - 1];
  }

  /** Column alignment: outside the unpadded top tier every row is exactly eight
      characters longer than the column width. */
  lemma FormatAligned(ds: DirSize, width: int)
    requires |ds.name| <= width
    requires Shifted(ds.size, 5) < 999
    ensures |FormatSpec(ds, width).value| == width + 8
  {
    RenderTopTier(ds.size);
    RenderBounds(ds.size);
    assert Pow10(4) == 10000;
    DecimalLength(Render(ds.size).value, 4);
  }

  /** The step from bytes to kibibytes: 1023 stays in B, 1024 prints as 1K. */
  lemma ByteBoundary()
    ensures Render(1023) == Rendering(1023, 0, true)
    ensures Render(1024) == Rendering(1, 1, true)
  {
    RenderBytes(1023);
    RenderFirstFit(1024, 0);
  }

  /** The asymmetric upper bound: 998K + 1023 bytes prints as 998K (index 0 stops),
      999K prints as 999K (index 1 stops on a zero M value), and not as M. */
  lemma KibiBoundary()
    ensures Render(1022975) == Rendering(998, 1, true)
    ensures Render(1022976) == Rendering(999, 1, true)
  {
    RenderFirstFit(1022975, 0);
    RenderFirstFit(1022976, 1);
  }

  /** One mebibyte prints as 1M, one byte less as 1023K. */
  lemma MebiBoundary()
    ensures Render(1048575) == Rendering(1023, 1, true)
    ensures Render(1048576) == Rendering(1, 2, true)
  {
    RenderFirstFit(1048575, 1);
    RenderFirstFit(1048576, 1);
  }
}
