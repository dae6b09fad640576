/** `parseTable`: the grades table, one list of cell texts per row, becomes
    the list of records. The first row is the header; a row with fewer than
    five cells is skipped. */
module Table {
  import opened Wrappers
  import opened Text
  import opened Grades
  import opened Averages
  import opened Groups

  /** The record read from one row of at least five cells: designation,
      teacher, then the CC, TP and exam scores, each cell trimmed. The
      average starts at 0 and there is no retake yet. */
  function ParseRow(cells: seq<string>, config: Config): Module
    requires |cells| >= 5
  {
    var designation := Trim(cells[0]);
    Module(designation, Trim(cells[1]), CellGrade(cells, 2), CellGrade(cells, 3), CellGrade(cells, 4),
           None, false, GetModuleCredits(config, designation), Some(0.0), false)
  }

  /** The grade `parseGrade` reads from cell `i`, trimmed (`CellGradeIs`). */
  function CellGrade(cells: seq<string>, i: nat): Option<real>
    requires i < |cells|
  {
    if i == 0 then ParseGrade(Trim(cells[0])) else CellGrade(cells[1..], i - 1)
  }

  /** The records of rows 1 to n - 1, in row order. */
  function ParseRows(rows: seq<seq<string>>, config: Config, n: nat): seq<Module>
    requires n <= |rows|
  {
    if n <= 1 then []
    else ParseRows(rows, config, n - 1) + (if |rows[n - 1]| >= 5 then [ParseRow(rows[n - 1], config)] else [])
  }

  /** The whole table. */
  function ParseTable(rows: seq<seq<string>>, config: Config): seq<Module>
  {
    ParseRows(rows, config, |rows|)
  }

  /** The indices, in order, of rows 1 .. n - 1 that carry at least five cells. */
  function DataRows(rows: seq<seq<string>>, n: nat): (idx: seq<nat>)
    requires n <= |rows|
    ensures forall k | 0 <= k < |idx| :: 1 <= idx[k] < n && |rows[idx[k]]| >= 5
  {
    if n <= 1 then [] else DataRows(rows, n - 1) + (if |rows[n - 1]| >= 5 then [n - 1] else [])
  }

  // ---------------------------------------------------------------------------
  // Properties

  /** No row after the header with five cells or more is missed. */
  lemma {:induction false} DataRowsExact(rows: seq<seq<string>>, n: nat)
    requires n <= |rows|
    ensures forall i | 1 <= i < n && |rows[i]| >= 5 :: i in DataRows(rows, n)
  {
    if n > 1 {
      DataRowsExact(rows, n - 1);
      var pidx, idx := DataRows(rows, n - 1), DataRows(rows, n);
      assert idx == pidx + (if |rows[n - 1]| >= 5 then [n - 1] else []);
      forall i | 1 <= i < n && |rows[i]| >= 5 ensures i in idx {
        if i < n - 1 {
          var j :| 0 <= j < |pidx| && pidx[j] == i;
          assert idx[j] == i;
        } else {
          assert idx[|idx| - 1] == i;
        }
      }
    }
  }

  /** The data rows are listed in strictly increasing row order. */
  lemma {:induction false} DataRowsIncreasing(rows: seq<seq<string>>, n: nat)
    requires n <= |rows|
    ensures forall k, l | 0 <= k < l < |DataRows(rows, n)| :: DataRows(rows, n)[k] < DataRows(rows, n)[l]
  {
    if n > 1 {
      DataRowsIncreasing(rows, n - 1);
    }
  }

  /** The values a reader gives for rows 1 to n - 1 that carry at least five
      cells, in row order: the shape of `ParseRows` for any reader. */
  function ReadRows<T>(rows: seq<seq<string>>, read: seq<string> --> T, n: nat): seq<T>
    requires n <= |rows|
    requires forall i | 1 <= i < n && |rows[i]| >= 5 :: read.requires(rows[i])
  {
    if n <= 1 then []
    else ReadRows(rows, read, n - 1) + (if |rows[n - 1]| >= 5 then [read(rows[n - 1])] else [])
  }

  /** Value k of `ReadRows` is read from data row k. */
  lemma {:induction false} ReadRowsOrigin<T>(rows: seq<seq<string>>, read: seq<string> --> T, n: nat)
    requires n <= |rows|
    requires forall i | 1 <= i < n && |rows[i]| >= 5 :: read.requires(rows[i])
    ensures |ReadRows(rows, read, n)| == |DataRows(rows, n)|
    ensures forall k | 0 <= k < |DataRows(rows, n)| ::
      read.requires(rows[DataRows(rows, n)[k]]) && ReadRows(rows, read, n)[k] == read(rows[DataRows(rows, n)[k]])
  {
    if n > 1 {
      ReadRowsOrigin(rows, read, n - 1);
      var prev, cur := ReadRows(rows, read, n - 1), ReadRows(rows, read, n);
      var pidx, idx := DataRows(rows, n - 1), DataRows(rows, n);
      if |rows[n - 1]| >= 5 {
        assert cur == prev + [read(rows[n - 1])];
        assert idx == pidx + [n - 1];
        forall k | 0 <= k < |idx| ensures cur[k] == read(rows[idx[k]]) {
          if k < |pidx| {
            assert cur[k] == prev[k] && idx[k] == pidx[k];
          }
        }
      } else {
        assert cur == prev && idx == pidx;
      }
    }
  }

  /** `ParseRow` as a value, for `ReadRows`. */
  function RowReader(config: Config): seq<string> --> Module
  {
    (cells: seq<string>) requires |cells| >= 5 => ParseRow(cells, config)
  }

  /** `ParseRows` is `ReadRows` with `ParseRow` as the reader. */
  lemma {:induction false} ParseRowsRead(rows: seq<seq<string>>, config: Config, n: nat)
    requires n <= |rows|
    ensures ParseRows(rows, config, n) == ReadRows(rows, RowReader(config), n)
  {
    if n > 1 {
      ParseRowsRead(rows, config, n - 1);
      if |rows[n - 1]| >= 5 {
        assert RowReader(config)(rows[n - 1]) == ParseRow(rows[n - 1], config);
      }
    }
  }

  /** `parseTable` reads one record from each data row, in row order. */
  lemma ParseRowsOrigin(rows: seq<seq<string>>, config: Config, n: nat)
    requires n <= |rows|
    ensures |ParseRows(rows, config, n)| == |DataRows(rows, n)|
    ensures forall k | 0 <= k < |DataRows(rows, n)| ::
      ParseRows(rows, config, n)[k] == ParseRow(rows[DataRows(rows, n)[k]], config)
  {
    var read := RowReader(config);
    ParseRowsRead(rows, config, n);
    ReadRowsOrigin(rows, read, n);
    forall k | 0 <= k < |DataRows(rows, n)|
      ensures ParseRows(rows, config, n)[k] == ParseRow(rows[DataRows(rows, n)[k]], config)
    {
      assert read(rows[DataRows(rows, n)[k]]) == ParseRow(rows[DataRows(rows, n)[k]], config);
    }
  }

  /** The scores of a record are what `parseGrade` reads from the trimmed
      third, fourth and fifth cells. */
  lemma RowScores(cells: seq<string>, config: Config)
    requires |cells| >= 5
    ensures ParseRow(cells, config).noteCC == ParseGrade(Trim(cells[2]))
    ensures ParseRow(cells, config).noteTP == ParseGrade(Trim(cells[3]))
    ensures ParseRow(cells, config).noteExam == ParseGrade(Trim(cells[4]))
  {
    CellGradeIs(cells, 2);
    CellGradeIs(cells, 3);
    CellGradeIs(cells, 4);
  }

  lemma {:induction false} CellGradeIs(cells: seq<string>, i: nat)
    requires i < |cells|
    ensures CellGrade(cells, i) == ParseGrade(Trim(cells[i]))
  {
    if i > 0 {
      CellGradeIs(cells[1..], i - 1);
    }
  }

  /** A freshly read table has no overall row, no retake and average 0 everywhere. */
  lemma ParsedRecordsFresh(rows: seq<seq<string>>, config: Config, n: nat)
    requires n <= |rows|
    ensures NoGeneral(ParseRows(rows, config, n))
    ensures forall k | 0 <= k < |ParseRows(rows, config, n)| ::
      var m := ParseRows(rows, config, n)[k];
      !m.hasRattrapage && m.moyenne == Some(0.0) && m.credits == GetModuleCredits(config, m.designation)
  {
    ParseRowsOrigin(rows, config, n);
    var data, idx := ParseRows(rows, config, n), DataRows(rows, n);
    forall k | 0 <= k < |data|
      ensures !data[k].isGeneral && !data[k].hasRattrapage && data[k].moyenne == Some(0.0)
      ensures data[k].credits == GetModuleCredits(config, data[k].designation)
    {
      assert data[k] == ParseRow(rows[idx[k]], config);
    }
  }

  /** Without a UE configuration every record is worth one credit. */
  lemma UnconfiguredCredits(rows: seq<seq<string>>)
    ensures forall k | 0 <= k < |ParseTable(rows, [])| :: ParseTable(rows, [])[k].credits == 1
  {
    ParsedRecordsFresh(rows, [], |rows|);
    forall k | 0 <= k < |ParseTable(rows, [])| ensures ParseTable(rows, [])[k].credits == 1 {
      CreditsWithoutConfig(ParseTable(rows, [])[k].designation);
    }
  }

  /** A table with a header only, or nothing at all, gives no record. */
  lemma HeaderOnlyTable(rows: seq<seq<string>>, config: Config)
    requires |rows| <= 1
    ensures ParseTable(rows, config) == []
  {
  }
}
