/**
 * The generic scanner's table: syft prints one header line and then one line per
 * package with quoted, comma-separated package, version and found-by cells. The
 * quotes are dropped and each line is cut at every comma; there is no escaping.
 * The rows then go through pandas, which pads a short row with empty cells and
 * refuses the table when its widest row is not exactly three cells wide.
 */
module GenericScan {
  import opened Options
  import opened PyStrings

  /** One scanner row; a cell pandas had to pad is `None`. */
  datatype ScanRow = ScanRow(package: string, version: Option<string>, foundBy: Option<string>)

  /**
   * The cells of a data line: `line.replace('"', '').split(',')`. Joined back with commas
   * they are the line without its quotes.
   */
  function Cells(line: string): (r: seq<string>)
    ensures |r| >= 1
    ensures forall k :: 0 <= k < |r| ==> '"' !in r[k] && ',' !in r[k]
    ensures Join(r, ",") == Without(line, '"')
  {
    var bare := RemoveAll(line, "\"");
    RemoveAllChar(line, '"');
    assert "\"" == ['"'];
    RemoveAllCharIsWithout(line, '"');
    SplitJoin(bare, ",");
    SplitFieldsFree(bare, ",");
    forall k | 0 <= k < |Split(bare, ",")|
      ensures '"' !in Split(bare, ",")[k] && ',' !in Split(bare, ",")[k]
    {
      ContainsChar(Split(bare, ",")[k], ',');
      CellsQuoteFree(bare, k);
    }
    Split(bare, ",")
  }

  /** The fields of a text free of quotes are free of quotes. */
  lemma CellsQuoteFree(bare: string, k: int)
    requires '"' !in bare && 0 <= k < |Split(bare, ",")|
    ensures '"' !in Split(bare, ",")[k]
  {
    SplitJoin(bare, ",");
    JoinHasParts(Split(bare, ","), ",", k);
  }

  /** Every part of a join is a slice of it. */
  lemma {:induction false} JoinHasParts(parts: seq<string>, sep: string, k: int)
    requires 0 <= k < |parts|
    ensures forall ch :: ch in parts[k] ==> ch in Join(parts, sep)
  {
    if k > 0 {
      JoinHasParts(parts[1..], sep, k - 1);
      assert parts[1..][k - 1] == parts[k];
    }
  }

  /** The data lines: the output's lines after the header, `tmp[1:]`. */
  function DataLines(out: string): (r: seq<string>)
    ensures |r| == if |Lines(out)| == 0 then 0 else |Lines(out)| - 1
    ensures forall k :: 0 <= k < |r| ==> r[k] == Lines(out)[k + 1]
  {
    var ls := Lines(out);
    if |ls| == 0 then [] else ls[1..]
  }

  /** The widest of the cell lists, 0 when there are none. */
  function Widest(rows: seq<seq<string>>): (w: nat)
    ensures forall k :: 0 <= k < |rows| ==> |rows[k]| <= w
    ensures |rows| > 0 ==> exists k :: 0 <= k < |rows| && |rows[k]| == w
  {
    if |rows| == 0 then 0
    else
      var w := Widest(rows[1..]);
      assert forall k :: 1 <= k < |rows| ==> rows[k] == rows[1..][k - 1];
      if |rows[0]| >= w then |rows[0]| else w
  }

  /** A row of at most three cells, padded to three. */
  function Row(cells: seq<string>): (r: ScanRow)
    requires 1 <= |cells| <= 3
    ensures r.package == cells[0]
    ensures r.version.Some? <==> |cells| >= 2
    ensures r.foundBy.Some? <==> |cells| == 3
    ensures r.version.Some? ==> r.version.value == cells[1]
    ensures r.foundBy.Some? ==> r.foundBy.value == cells[2]
  {
    ScanRow(cells[0], if |cells| >= 2 then Some(cells[1]) else None, if |cells| == 3 then Some(cells[2]) else None)
  }

  /** The cell lists of the data lines. */
  function CellRows(lines: seq<string>): (r: seq<seq<string>>)
    ensures |r| == |lines| && forall k :: 0 <= k < |lines| ==> r[k] == Cells(lines[k])
  {
    seq(|lines|, k requires 0 <= k < |lines| => Cells(lines[k]))
  }

  /**
   * The scanner table `identify_binaries` starts from: one row per data line, or `None`
   * where pandas raises because the widest line does not have exactly three cells.
   */
  function ScanTable(out: string): (r: Option<seq<ScanRow>>)
    ensures var rows := CellRows(DataLines(out));
      r.None? <==> |rows| > 0 && Widest(rows) != 3
    ensures r.Some? ==> |r.value| == |DataLines(out)|
    ensures r.Some? ==> forall k :: 0 <= k < |r.value| ==>
      |Cells(DataLines(out)[k])| <= 3 && r.value[k] == Row(Cells(DataLines(out)[k]))
  {
    var rows := CellRows(DataLines(out));
    if |rows| > 0 && Widest(rows) != 3 then None
    else
      var table := seq(|rows|, k requires 0 <= k < |rows| => Row(rows[k]));
      assert forall k :: 0 <= k < |table| ==> rows[k] == Cells(DataLines(out)[k]) && |rows[k]| <= 3;
      Some(table)
  }

  /** A scanner line as the template writes it: three quoted cells. */
  function Quoted(package: string, version: string, foundBy: string): string {
    "\"" + package + "\",\"" + version + "\",\"" + foundBy + "\""
  }

  /** A cell that can be written into a quoted line and read back. */
  predicate Plain(cell: string) {
    '"' !in cell && ',' !in cell && '\n' !in cell
  }

  /** Dropping the quotes of a quoted line leaves the cells with commas between them. */
  lemma UnquoteQuoted(package: string, version: string, foundBy: string)
    requires Plain(package) && Plain(version) && Plain(foundBy)
    ensures RemoveAll(Quoted(package, version, foundBy), "\"") == package + "," + version + "," + foundBy
  {
    var q := "\"";
    var sep := "\",\"";
    assert Without(q, '"') == "";
    assert Without(sep, '"') == ",";
    WithoutAbsent(package, '"');
    WithoutAbsent(version, '"');
    WithoutAbsent(foundBy, '"');
    var a1 := q + package;
    WithoutConcat(q, package, '"');
    assert Without(a1, '"') == package;
    var a2 := a1 + sep;
    WithoutConcat(a1, sep, '"');
    var a3 := a2 + version;
    WithoutConcat(a2, version, '"');
    var a4 := a3 + sep;
    WithoutConcat(a3, sep, '"');
    var a5 := a4 + foundBy;
    WithoutConcat(a4, foundBy, '"');
    var a6 := a5 + q;
    WithoutConcat(a5, q, '"');
    assert Without(a6, '"') == package + "," + version + "," + foundBy;
    assert Quoted(package, version, foundBy) == a6;
    assert q == ['"'];
    RemoveAllCharIsWithout(a6, '"');
  }

  /** A quoted line's cells are the three cells written. */
  lemma CellsOfQuoted(package: string, version: string, foundBy: string)
    requires Plain(package) && Plain(version) && Plain(foundBy)
    ensures Cells(Quoted(package, version, foundBy)) == [package, version, foundBy]
  {
    UnquoteQuoted(package, version, foundBy);
    var parts := [package, version, foundBy];
    assert Join(parts, ",") == package + "," + version + "," + foundBy by {
      assert parts == [package] + [version, foundBy];
      assert [version, foundBy] == [version] + [foundBy];
      JoinCons(package, [version, foundBy], ",");
      JoinCons(version, [foundBy], ",");
      assert package + "," + (version + "," + foundBy) == package + "," + version + "," + foundBy;
    }
    SplitJoinChar(parts, ',');
  }

  /** The data lines the template writes for a list of (package, version, found-by) entries. */
  function QuotedLines(entries: seq<(string, string, string)>): (r: seq<string>)
    ensures |r| == |entries|
    ensures forall k :: 0 <= k < |entries| ==> r[k] == Quoted(entries[k].0, entries[k].1, entries[k].2)
  {
    seq(|entries|, k requires 0 <= k < |entries| => Quoted(entries[k].0, entries[k].1, entries[k].2))
  }

  /** A quoted line of plain cells is one line. */
  lemma QuotedOneLine(package: string, version: string, foundBy: string)
    requires Plain(package) && Plain(version) && Plain(foundBy)
    ensures '\n' !in Quoted(package, version, foundBy)
  {
  }

  /** The data lines of a header followed by newline-ended lines are those lines. */
  lemma DataLinesOfJoin(header: string, data: seq<string>)
    requires '\n' !in header
    requires forall k :: 0 <= k < |data| ==> '\n' !in data[k]
    ensures DataLines(Join([header] + data + [""], "\n")) == data
  {
    var lines := [header] + data;
    forall k | 0 <= k < |lines| ensures '\n' !in lines[k] {
      if k > 0 {
        assert lines[k] == data[k - 1];
      }
    }
    LinesOfJoin(lines);
  }

  /** When every data line has three cells the table has one full row per line. */
  lemma ScanTableFull(out: string)
    requires forall k :: 0 <= k < |DataLines(out)| ==> |Cells(DataLines(out)[k])| == 3
    ensures ScanTable(out).Some?
  {
    var rows := CellRows(DataLines(out));
    if |rows| > 0 {
      var j :| 0 <= j < |rows| && |rows[j]| == Widest(rows);
      assert |rows[j]| == 3;
    }
  }

  /**
   * Reading back what the template writes: a header line and one quoted line per entry,
   * each ended by a newline, give one full row per entry, in order.
   */
  lemma ScanTableOfQuoted(header: string, entries: seq<(string, string, string)>)
    requires '\n' !in header
    requires forall k :: 0 <= k < |entries| ==> Plain(entries[k].0) && Plain(entries[k].1) && Plain(entries[k].2)
    ensures var out := Join([header] + QuotedLines(entries) + [""], "\n");
      ScanTable(out) == Some(seq(|entries|, k requires 0 <= k < |entries| =>
        ScanRow(entries[k].0, Some(entries[k].1), Some(entries[k].2))))
  {
    var data := QuotedLines(entries);
    forall k | 0 <= k < |data| ensures '\n' !in data[k] {
      QuotedOneLine(entries[k].0, entries[k].1, entries[k].2);
    }
    var out := Join([header] + data + [""], "\n");
    DataLinesOfJoin(header, data);
    forall k | 0 <= k < |data| ensures Cells(data[k]) == [entries[k].0, entries[k].1, entries[k].2] {
      CellsOfQuoted(entries[k].0, entries[k].1, entries[k].2);
    }
    ScanTableFull(out);
    var table := ScanTable(out).value;
    var want := seq(|entries|, k requires 0 <= k < |entries| =>
      ScanRow(entries[k].0, Some(entries[k].1), Some(entries[k].2)));
    forall k | 0 <= k < |entries| ensures table[k] == want[k] {
      assert table[k] == Row(Cells(data[k]));
    }
    assert table == want;
  }

  /** The scanner's one-row example: a header and one template line read back as one full row. */
  lemma ScanExample()
    ensures ScanTable("package,version,found_by\n" + Quoted("pkg", "1.0", "manual-inspection") + "\n")
      == Some([ScanRow("pkg", Some("1.0"), Some("manual-inspection"))])
  {
    var header := "package,version,found_by";
    var entries := [("pkg", "1.0", "manual-inspection")];
    var line := Quoted("pkg", "1.0", "manual-inspection");
    var out := "package,version,found_by\n" + line + "\n";
    assert Join([header] + QuotedLines(entries) + [""], "\n") == out by {
      assert QuotedLines(entries) == [line];
      assert [header] + [line] + [""] == [header, line, ""];
      JoinCons(header, [line, ""], "\n");
      JoinCons(line, [""], "\n");
    }
    var want := seq(|entries|, k requires 0 <= k < |entries| =>
      ScanRow(entries[k].0, Some(entries[k].1), Some(entries[k].2)));
    assert want == [ScanRow("pkg", Some("1.0"), Some("manual-inspection"))];
    assert ScanTable(out) == Some(want) by {
      ScanTableOfQuoted(header, entries);
    }
  }

}
