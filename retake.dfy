/** `handleRattrapageGrades`: the rows of the retake table overlay their grade
    on the matching module, replacing its exam score. A row is a list of cell
    texts; the first row is the header. */
module Retake {
  import opened Wrappers
  import opened Text
  import opened Grades
  import opened Matching

  /** A grade the overlay accepts: present and within [0, 20]. */
  predicate IsRetakeGrade(g: Option<real>)
  {
    g.Some? && 0.0 <= g.value <= 20.0
  }

  /** What `parseGrade` makes of each trimmed cell (see `CellGradesAt`). */
  function CellGrades(cells: seq<string>): (gs: seq<Option<real>>)
    ensures |gs| == |cells|
  {
    if cells == [] then [] else [ParseGrade(Trim(cells[0]))] + CellGrades(cells[1..])
  }

  /** Cell `k` holds the grade `parseGrade` reads from its trimmed text. */
  lemma {:induction false} CellGradesAt(cells: seq<string>, k: nat)
    requires k < |cells|
    ensures CellGrades(cells)[k] == ParseGrade(Trim(cells[k]))
  {
    var tail := CellGrades(cells[1..]);
    assert CellGrades(cells) == [ParseGrade(Trim(cells[0]))] + tail;
    if k > 0 {
      CellGradesAt(cells[1..], k - 1);
      assert cells[1..][k - 1] == cells[k];
      assert CellGrades(cells)[k] == tail[k - 1];
    }
  }

  /** The first grade, from column `col` on, that lies in [0, 20]. */
  function FirstRetakeGrade(grades: seq<Option<real>>, col: nat): (r: Option<real>)
    ensures r.Some? ==> IsRetakeGrade(r)
    ensures r.Some? ==> exists k | col <= k < |grades| ::
      grades[k] == r && forall j | col <= j < k :: !IsRetakeGrade(grades[j])
    ensures r.None? ==> forall k | col <= k < |grades| :: !IsRetakeGrade(grades[k])
    decreases |grades| - col
  {
    if col >= |grades| then None
    else if IsRetakeGrade(grades[col]) then grades[col]
    else FirstRetakeGrade(grades, col + 1)
  }

  /** The first record whose lower-cased designation equals the lower-cased name. */
  function FindExact(data: seq<Module>, name: string): (r: Option<nat>)
    ensures r.Some? ==> r.value < |data| && Lower(data[r.value].designation) == Lower(name)
    ensures r.Some? ==> forall j | 0 <= j < r.value :: Lower(data[j].designation) != Lower(name)
    ensures r.None? ==> forall j | 0 <= j < |data| :: Lower(data[j].designation) != Lower(name)
  {
    if data == [] then None
    else if Lower(data[0].designation) == Lower(name) then Some(0)
    else match FindExact(data[1..], name) {
      case None => None
      case Some(i) => Some(i + 1)
    }
  }

  /** The first record whose lower-cased designation `isModuleMatch`es the
      lower-cased name (no aliases). */
  function FindMatching(data: seq<Module>, name: string): (r: Option<nat>)
    ensures r.Some? ==> r.value < |data| && IsModuleMatch(Lower(data[r.value].designation), Lower(name), [])
    ensures r.Some? ==> forall j | 0 <= j < r.value :: !IsModuleMatch(Lower(data[j].designation), Lower(name), [])
    ensures r.None? ==> forall j | 0 <= j < |data| :: !IsModuleMatch(Lower(data[j].designation), Lower(name), [])
  {
    if data == [] then None
    else if IsModuleMatch(Lower(data[0].designation), Lower(name), []) then Some(0)
    else match FindMatching(data[1..], name) {
      case None => None
      case Some(i) => Some(i + 1)
    }
  }

  /** Exact name first, then the fuzzy match. */
  function FindRetakeTarget(data: seq<Module>, name: string): Option<nat>
  {
    if FindExact(data, name).Some? then FindExact(data, name) else FindMatching(data, name)
  }

  /** A retake grade replaces the exam score and is remembered as such. */
  function WithRetake(m: Module, g: real): Module
  {
    m.(noteExam := Some(g), noteRattrapage := Some(g), hasRattrapage := true)
  }

  /** The grade a row carries: none for rows with fewer than two cells. */
  function RowGrade(cells: seq<string>): (g: Option<real>)
    ensures g.Some? ==> IsRetakeGrade(g)
  {
    if |cells| < 2 then None else FirstRetakeGrade(CellGrades(cells), 1)
  }

  /** The overlay of one grade found under one name: a missing grade, an
      empty name or a name that finds no module changes nothing. */
  function ApplyGrade(data: seq<Module>, name: string, g: Option<real>): seq<Module>
  {
    if g.None? || name == "" then data
    else match FindRetakeTarget(data, name) {
      case None => data
      case Some(i) => data[i := WithRetake(data[i], g.value)]
    }
  }

  /** One row of the retake table. */
  function ApplyRetakeRow(data: seq<Module>, cells: seq<string>): seq<Module>
  {
    if |cells| < 2 then data else ApplyGrade(data, Trim(cells[0]), RowGrade(cells))
  }

  /** The rows from index `i` on, in order. */
  function ApplyRetakesFrom(data: seq<Module>, rows: seq<seq<string>>, i: nat): seq<Module>
    decreases |rows| - i
  {
    if i >= |rows| then data else ApplyRetakesFrom(ApplyRetakeRow(data, rows[i]), rows, i + 1)
  }

  /** The whole retake table, header skipped; no table, no change. */
  function ApplyRetakes(data: seq<Module>, table: Option<seq<seq<string>>>): seq<Module>
  {
    match table {
      case None => data
      case Some(rows) => ApplyRetakesFrom(data, rows, 1)
    }
  }

  // ---------------------------------------------------------------------------
  // Properties

  /** A grade changes at most one record, and only when it is present, the
      name is non-empty and finds a module; that record gets the grade as exam
      and retake score and the flag, and keeps every other field. */
  lemma ApplyGradeEffect(data: seq<Module>, name: string, g: Option<real>)
    ensures var r := ApplyGrade(data, name, g);
      && |r| == |data|
      && (r == data || (
        && g.Some? && name != ""
        && exists i | 0 <= i < |data| ::
          && FindRetakeTarget(data, name) == Some(i)
          && r == data[i := WithRetake(data[i], g.value)]))
  {
  }

  /** A row changes nothing unless it has two cells, a non-empty name and a
      grade in [0, 20]. */
  lemma RetakeRowEffect(data: seq<Module>, cells: seq<string>)
    ensures var r := ApplyRetakeRow(data, cells);
      r != data ==> |cells| >= 2 && Trim(cells[0]) != "" && IsRetakeGrade(RowGrade(cells))
    ensures |cells| >= 2 ==> ApplyRetakeRow(data, cells) == ApplyGrade(data, Trim(cells[0]), RowGrade(cells))
  {
    if |cells| >= 2 {
      ApplyGradeEffect(data, Trim(cells[0]), RowGrade(cells));
    }
  }

  /** A name equal to a designation up to case picks the first such record,
      even when an earlier record would match it loosely. */
  lemma ExactNameWins(data: seq<Module>, name: string, i: nat)
    requires i < |data| && Lower(data[i].designation) == Lower(name)
    requires forall j | 0 <= j < i :: Lower(data[j].designation) != Lower(name)
    ensures FindRetakeTarget(data, name) == Some(i)
  {
    var e := FindExact(data, name);
    if e.value < i {
    } else if e.value > i {
    }
  }

  /** What the retake overlay promises about a record: flagged records carry
      the same grade, in [0, 20], as exam and retake score. */
  predicate RetakeConsistent(m: Module)
  {
    m.hasRattrapage ==> m.noteExam == m.noteRattrapage && IsRetakeGrade(m.noteExam)
  }

  predicate AllRetakeConsistent(data: seq<Module>)
  {
    forall i | 0 <= i < |data| :: RetakeConsistent(data[i])
  }

  /** Besides the scores and the flag, a record is never changed by a row. */
  predicate SameModule(a: Module, b: Module)
  {
    && a.designation == b.designation && a.enseignant == b.enseignant
    && a.noteCC == b.noteCC && a.noteTP == b.noteTP
    && a.credits == b.credits && a.moyenne == b.moyenne && a.isGeneral == b.isGeneral
  }

  predicate SameModules(a: seq<Module>, b: seq<Module>)
  {
    |a| == |b| && forall i | 0 <= i < |a| :: SameModule(a[i], b[i])
  }

  lemma ApplyGradeKeeps(data: seq<Module>, name: string, g: Option<real>)
    requires g.Some? ==> IsRetakeGrade(g)
    ensures SameModules(data, ApplyGrade(data, name, g))
    ensures AllRetakeConsistent(data) ==> AllRetakeConsistent(ApplyGrade(data, name, g))
  {
    ApplyGradeEffect(data, name, g);
  }

  lemma RetakeRowKeeps(data: seq<Module>, cells: seq<string>)
    ensures SameModules(data, ApplyRetakeRow(data, cells))
    ensures AllRetakeConsistent(data) ==> AllRetakeConsistent(ApplyRetakeRow(data, cells))
  {
    if |cells| >= 2 {
      ApplyGradeKeeps(data, Trim(cells[0]), RowGrade(cells));
    }
  }

  /** The whole table keeps the list's length, names, cc and tp scores,
      credits and averages, and keeps every flagged record consistent. */
  lemma {:induction false} RetakesFromKeep(data: seq<Module>, rows: seq<seq<string>>, i: nat)
    ensures SameModules(data, ApplyRetakesFrom(data, rows, i))
    ensures AllRetakeConsistent(data) ==> AllRetakeConsistent(ApplyRetakesFrom(data, rows, i))
    decreases |rows| - i
  {
    if i < |rows| {
      var next := ApplyRetakeRow(data, rows[i]);
      RetakeRowKeeps(data, rows[i]);
      RetakesFromKeep(next, rows, i + 1);
      assert ApplyRetakesFrom(data, rows, i) == ApplyRetakesFrom(next, rows, i + 1);
      SameModulesTrans(data, next, ApplyRetakesFrom(next, rows, i + 1));
    }
  }

  lemma SameModulesTrans(a: seq<Module>, b: seq<Module>, c: seq<Module>)
    requires SameModules(a, b) && SameModules(b, c)
    ensures SameModules(a, c)
  {
  }

  lemma RetakesKeep(data: seq<Module>, table: Option<seq<seq<string>>>)
    ensures SameModules(data, ApplyRetakes(data, table))
    ensures AllRetakeConsistent(data) ==> AllRetakeConsistent(ApplyRetakes(data, table))
  {
    if table.Some? {
      RetakesFromKeep(data, table.value, 1);
    }
  }

  /** A table with only its header row changes nothing. */
  lemma HeaderOnly(data: seq<Module>, header: seq<string>)
    ensures ApplyRetakes(data, Some([header])) == data
  {
  }

  /** The row "ALGÈBRE", "", "12,5" carries the grade 12.5: the empty cell is
      skipped and the comma is read as a decimal point. */
  lemma AlgebraRowGrade(cells: seq<string>)
    requires |cells| == 3 && cells[0] == "ALGÈBRE" && cells[1] == "" && cells[2] == "12,5"
    ensures RowGrade(cells) == Some(12.5)
  {
    var blank, grade := cells[1], cells[2];
    assert Trim(blank) == "";
    assert Trim(grade) == "12,5" by {
      TrimFixesTrimmed("12,5");
    }
    ParseGradeCommaExample();
    BlankCellSkipped(cells, 12.5);
  }

  /** A blank second cell is skipped and the third cell's grade is taken. */
  lemma BlankCellSkipped(cells: seq<string>, g: real)
    requires |cells| >= 3 && ParseGrade(Trim(cells[1])).None?
    requires ParseGrade(Trim(cells[2])) == Some(g) && 0.0 <= g <= 20.0
    ensures RowGrade(cells) == Some(g)
  {
    var gs := CellGrades(cells);
    CellGradesAt(cells, 1);
    CellGradesAt(cells, 2);
    FirstRetakeAfterGap(gs, g);
  }

  lemma FirstRetakeAfterGap(gs: seq<Option<real>>, g: real)
    requires |gs| >= 3 && gs[1].None? && gs[2] == Some(g) && 0.0 <= g <= 20.0
    ensures FirstRetakeGrade(gs, 1) == Some(g)
  {
    assert !IsRetakeGrade(gs[1]) && IsRetakeGrade(gs[2]);
    assert FirstRetakeGrade(gs, 2) == Some(g);
  }

  /** "ALGÈBRE" and "Algèbre" are the same name up to case. */
  lemma AlgebraSameName()
    ensures Trim("ALGÈBRE") == "ALGÈBRE"
    ensures Lower("ALGÈBRE") == Lower("Algèbre")
  {
    TrimFixesTrimmed("ALGÈBRE");
    assert Lower("ALGÈBRE") == "algèbre";
    assert Lower("Algèbre") == "algèbre";
  }

  /** A row naming a module up to case, with a grade, overlays that grade on
      it (so the row above sets the exam score of "Algèbre" to 12.5). */
  lemma RetakeOnSameName(data: seq<Module>, cells: seq<string>, i: nat)
    requires |cells| >= 2 && Trim(cells[0]) != "" && RowGrade(cells).Some?
    requires i < |data| && Lower(data[i].designation) == Lower(Trim(cells[0]))
    requires forall j | 0 <= j < i :: Lower(data[j].designation) != Lower(Trim(cells[0]))
    ensures ApplyRetakeRow(data, cells) == data[i := WithRetake(data[i], RowGrade(cells).value)]
  {
    RetakeRowEffect(data, cells);
    ExactNameWins(data, Trim(cells[0]), i);
    GradeOnTarget(data, Trim(cells[0]), RowGrade(cells), i);
  }

  lemma GradeOnTarget(data: seq<Module>, name: string, g: Option<real>, i: nat)
    requires name != "" && g.Some? && FindRetakeTarget(data, name) == Some(i)
    ensures ApplyGrade(data, name, g) == data[i := WithRetake(data[i], g.value)]
  {
  }
}
