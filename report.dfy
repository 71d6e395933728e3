/** `PrintSizes` (main.go:95-113): one row per entry in a column as wide as the longest
    name, a blank line, then a "Total is" row for the sum of the raw byte counts. The
    report is returned as its lines instead of being written to standard output. */
module Report {
  import opened Wrappers
  import opened Text
  import opened SizeFormat

  /** The lines `PrintSizes` writes, and whether it then panics. A panic can only come
      from formatting the total row, which happens before any of its output. */
  datatype Output = Output(lines: seq<string>, panicked: bool)

  const TotalName: string := "Total is"

  /** `biggestLen`: the length of the longest name, 0 for no entries. */
  function MaxNameLen(sizes: seq<DirSize>): (m: nat) {
    if sizes == [] then 0
    else
      var m := MaxNameLen(sizes[..|sizes| - 1]);
      var n := |sizes[|sizes| - 1].name|;
      if n > m then n else m
  }

  /** `total`: the sum of the raw byte counts. */
  function Total(sizes: seq<DirSize>): (t: nat) {
    if sizes == [] then 0 else Total(sizes[..|sizes| - 1]) + sizes[|sizes| - 1].size
  }

  /** Every name fits in a column `width` wide. */
  predicate Fits(sizes: seq<DirSize>, width: nat) {
    forall k :: 0 <= k < |sizes| ==> |sizes[k].name| <= width
  }

  /** The entry rows, in input order. */
  function Rows(sizes: seq<DirSize>, width: nat): (rows: seq<string>)
    requires Fits(sizes, width)
  {
    if sizes == [] then []
    else Rows(sizes[..|sizes| - 1], width) + [Row(sizes[|sizes| - 1], width)]
  }

  /** What `PrintSizes` writes for `sizes`. */
  function Printed(sizes: seq<DirSize>): (out: Output) {
    var width := MaxNameLen(sizes);
    MaxNameLenIsMax(sizes);
    var rows := Rows(sizes, width);
    match FormatSpec(DirSize(TotalName, Total(sizes)), width)
    case None => Output(rows, true)
    case Some(totalRow) => Output(rows + ["", totalRow], false)
  }

  /** `MaxNameLen` bounds every name's length and is the length of one of them, or 0
      when there are no entries. */
  lemma {:induction false} MaxNameLenIsMax(sizes: seq<DirSize>)
    ensures Fits(sizes, MaxNameLen(sizes))
    ensures sizes == [] ==> MaxNameLen(sizes) == 0
    ensures sizes != [] ==> exists k :: 0 <= k < |sizes| && |sizes[k].name| == MaxNameLen(sizes)
  {
    if sizes != [] {
      var init := sizes[..|sizes| - 1];
      MaxNameLenIsMax(init);
      assert forall k :: 0 <= k < |init| ==> sizes[k] == init[k];
      if init != [] && MaxNameLen(sizes) == MaxNameLen(init) {
        var k :| 0 <= k < |init| && |init[k].name| == MaxNameLen(init);
        assert |sizes[k].name| == MaxNameLen(sizes);
      }
    }
  }

  /** The total of two runs of entries is the sum of their totals. */
  lemma {:induction false} TotalAppend(a: seq<DirSize>, b: seq<DirSize>)
    ensures Total(a + b) == Total(a) + Total(b)
    decreases |b|
  {
    if b == [] {
      assert a + b == a;
    } else {
      var b' := b[..|b| - 1];
      assert (a + b)[..|a + b| - 1] == a + b';
      assert (a + b)[|a + b| - 1] == b[|b| - 1];
      TotalAppend(a, b');
    }
  }

  /** Each entry's byte count is at most the total. */
  lemma {:induction false} TotalBounds(sizes: seq<DirSize>, k: nat)
    requires k < |sizes|
    ensures sizes[k].size <= Total(sizes)
  {
    assert sizes == sizes[..k] + [sizes[k]] + sizes[k + 1..];
    TotalAppend(sizes[..k] + [sizes[k]], sizes[k + 1..]);
    TotalAppend(sizes[..k], [sizes[k]]);
    assert Total([sizes[k]]) == sizes[k].size by {
      assert [sizes[k]][..0] == [];
    }
  }

  /** One row per entry, in input order, each the entry formatted at `width`. */
  lemma {:induction false} RowsAt(sizes: seq<DirSize>, width: nat)
    requires Fits(sizes, width)
    ensures |Rows(sizes, width)| == |sizes|
    ensures forall k :: 0 <= k < |sizes| ==> Rows(sizes, width)[k] == Row(sizes[k], width)
  {
    if sizes != [] {
      var init := sizes[..|sizes| - 1];
      assert Fits(init, width);
      RowsAt(init, width);
      var rows := Rows(sizes, width);
      assert rows == Rows(init, width) + [Row(sizes[|sizes| - 1], width)];
      forall k | 0 <= k < |sizes|
        ensures rows[k] == Row(sizes[k], width)
      {
        if k < |init| {
          assert sizes[k] == init[k];
        }
      }
    }
  }

  /** Appending the next entry's formatted row extends the rows by one. */
  lemma RowsSnoc(sizes: seq<DirSize>, i: nat, width: nat, row: string)
    requires i < |sizes| && Fits(sizes, width)
    requires FormatSpec(sizes[i], width) == Some(row)
    ensures Fits(sizes[..i], width) && Fits(sizes[..i + 1], width)
    ensures Rows(sizes[..i + 1], width) == Rows(sizes[..i], width) + [row]
  {
    var next := sizes[..i + 1];
    assert next[..i] == sizes[..i];
    assert next[i] == sizes[i];
  }

  /** `Printed` assembled from the entry rows and the outcome of formatting the total. */
  lemma PrintedFrom(sizes: seq<DirSize>, lines: seq<string>, totalRow: Option<string>)
    requires Fits(sizes, MaxNameLen(sizes))
    requires lines == Rows(sizes, MaxNameLen(sizes))
    requires totalRow == FormatSpec(DirSize(TotalName, Total(sizes)), MaxNameLen(sizes))
    ensures Printed(sizes) == if totalRow.None? then Output(lines, true)
                              else Output(lines + ["", totalRow.value], false)
  {
  }

  /** The whole report: the entry rows in input order, all at the width of the longest
      name; then, unless that width is below the length of "Total is" (the
      `strings.Repeat` panic), a blank line and the row for the exact sum of the raw
      byte counts, at the same width. */
  lemma PrintedShape(sizes: seq<DirSize>)
    ensures var out, width := Printed(sizes), MaxNameLen(sizes);
      && (out.panicked <==> width < |TotalName|)
      && |out.lines| == |sizes| + (if out.panicked then 0 else 2)
      && (forall k :: 0 <= k < |sizes| ==> FormatSpec(sizes[k], width) == Some(out.lines[k]))
      && (!out.panicked ==>
            out.lines[|sizes|] == "" &&
            FormatSpec(DirSize(TotalName, Total(sizes)), width) == Some(out.lines[|sizes| + 1]))
  {
    MaxNameLenIsMax(sizes);
    RowsAt(sizes, MaxNameLen(sizes));
  }

  /** With no entries the column width is 0, so the total row panics and nothing is
      written. */
  lemma EmptyReportPanics()
    ensures Printed([]) == Output([], true)
  {
  }

  /** Column alignment: every line written for an entry, and the total line, is eight
      characters longer than the longest name, unless its size is in the unpadded
      top tier. */
  lemma PrintedAligned(sizes: seq<DirSize>)
    ensures |Printed(sizes).lines| == |sizes| + (if Printed(sizes).panicked then 0 else 2)
    ensures forall k :: 0 <= k < |sizes| && Shifted(sizes[k].size, 5) < 999 ==>
      |Printed(sizes).lines[k]| == MaxNameLen(sizes) + 8
    ensures !Printed(sizes).panicked && Shifted(Total(sizes), 5) < 999 ==>
      |Printed(sizes).lines[|sizes| + 1]| == MaxNameLen(sizes) + 8
  {
    PrintedShape(sizes);
    MaxNameLenIsMax(sizes);
    LinesAligned(sizes, MaxNameLen(sizes), Printed(sizes));
  }

  lemma LinesAligned(sizes: seq<DirSize>, width: nat, out: Output)
    requires Fits(sizes, width)
    requires |out.lines| == |sizes| + (if out.panicked then 0 else 2)
    requires forall k :: 0 <= k < |sizes| ==> FormatSpec(sizes[k], width) == Some(out.lines[k])
    requires !out.panicked ==>
      FormatSpec(DirSize(TotalName, Total(sizes)), width) == Some(out.lines[|sizes| + 1])
    ensures forall k :: 0 <= k < |sizes| && Shifted(sizes[k].size, 5) < 999 ==>
      |out.lines[k]| == width + 8
    ensures !out.panicked && Shifted(Total(sizes), 5) < 999 ==> |out.lines[|sizes| + 1]| == width + 8
  {
    forall k | 0 <= k < |sizes| && Shifted(sizes[k].size, 5) < 999
      ensures |out.lines[k]| == width + 8
    {
      FormatAligned(sizes[k], width);
    }
    if !out.panicked && Shifted(Total(sizes), 5) < 999 {
      FormatAligned(DirSize(TotalName, Total(sizes)), width);
    }
  }

  /** A worked report: a 10-byte file and a directory holding 2560 bytes print as 10B
      and 2K; their 2570-byte total also prints as 2K. */
  lemma SmallReport()
    ensures Printed([DirSize("notes.txt", 10), DirSize("src", 2560)])
         == Output(["notes.txt     10B", "src            2K", "", "Total is       2K"], false)
  {
    var sizes := [DirSize("notes.txt", 10), DirSize("src", 2560)];
    assert sizes[..1] == [DirSize("notes.txt", 10)];
    assert sizes[..1][..0] == [];
    assert MaxNameLen(sizes) == 9;
    assert Total(sizes) == 2570;
    NotesRow();
    SrcRow();
    TotalRow();
    PrintedShape(sizes);
  }

  lemma NotesRow()
    ensures FormatSpec(DirSize("notes.txt", 10), 9) == Some("notes.txt     10B")
  {
    RenderBytes(10);
    assert Decimal(10) == "10";
    assert Spaces(4) == "    ";
    assert PadLeft("10", 6) == "    10";
    assert Units[0] == "B";
    assert SizeField(Rendering(10, 0, true)) == "     10B";
    RowWithField(DirSize("notes.txt", 10), 9, "     10B");
    assert Spaces(0) == "";
    assert "notes.txt" + Spaces(0) + "     10B" == "notes.txt     10B";
  }

  lemma SrcRow()
    ensures FormatSpec(DirSize("src", 2560), 9) == Some("src            2K")
  {
    TwoKibi(2560);
    TwoKibiField();
    RowWithField(DirSize("src", 2560), 9, "      2K");
    assert Spaces(6) == "      ";
    assert "src" + Spaces(6) + "      2K" == "src            2K";
  }

  lemma TotalRow()
    ensures FormatSpec(DirSize(TotalName, 2570), 9) == Some("Total is       2K")
  {
    TwoKibi(2570);
    TwoKibiField();
    RowWithField(DirSize(TotalName, 2570), 9, "      2K");
    assert |TotalName| == 8;
    assert Spaces(1) == " ";
    assert TotalName + Spaces(1) + "      2K" == "Total is       2K";
  }

  /** Every count from 2048 to 3071 bytes prints as 2K. */
  lemma TwoKibi(size: nat)
    requires 2048 <= size < 3072
    ensures Render(size) == Rendering(2, 1, true)
  {
    assert UnitSize(1) == 1024;
    DivisionUnique(size, 1024, 2, size - 2048);
    assert NextUnitValue(size, 0) == 2;
    RenderFirstFit(size, 0);
  }

  lemma TwoKibiField()
    ensures SizeField(Rendering(2, 1, true)) == "      2K"
  {
    assert Decimal(2) == "2";
    assert Spaces(5) == "     ";
    assert PadLeft("2", 6) == "     2";
    assert Units[1] == "K";
  }

  lemma RowWithField(ds: DirSize, width: nat, field: string)
    requires |ds.name| <= width
    requires SizeField(Render(ds.size)) == field
    ensures FormatSpec(ds, width) == Some(ds.name + Spaces(width - |ds.name|) + field)
  {
  }

  /** `PrintSizes`: find the widest name, then format each entry while summing the
      sizes, then format the total. */
  method PrintSizes(sizes: seq<DirSize>) returns (out: Output)
    ensures out == Printed(sizes)
  {
    var total := 0;
    var biggestLen := 0;
    for i := 0 to |sizes|
      invariant biggestLen == MaxNameLen(sizes[..i])
    {
      assert sizes[..i + 1][..i] == sizes[..i];
      if |sizes[i].name| > biggestLen {
        biggestLen := |sizes[i].name|;
      }
    }
    assert sizes[..|sizes|] == sizes;
    MaxNameLenIsMax(sizes);
    var lines: seq<string> := [];
    for i := 0 to |sizes|
      invariant Fits(sizes[..i], biggestLen)
      invariant lines == Rows(sizes[..i], biggestLen)
      invariant total == Total(sizes[..i])
    {
      assert sizes[..i + 1][..i] == sizes[..i];
      var row := Format(sizes[i], biggestLen);
      RowsSnoc(sizes, i, biggestLen, row.value);
      lines := lines + [row.value];
      total := total + sizes[i].size;
    }
    assert sizes[..|sizes|] == sizes;
    var totalRow := Format(DirSize(TotalName, total), biggestLen);
    PrintedFrom(sizes, lines, totalRow);
    if totalRow.None? {
      return Output(lines, true);
    }
    out := Output(lines + ["", totalRow.value], false);
  }
}
