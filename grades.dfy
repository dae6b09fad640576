/** One module's grades: reading score text, the four coefficient sets that
    turn a (cc, tp, exam) triple into a module average, the validation done
    when the user edits a score or a credit weight, and the pass mark. */
module Grades {
  import opened Wrappers
  import opened Text

  /** One entry of `currentData`: a row of the grades table, or (isGeneral)
      the synthetic "overall average" row. Missing scores are None (null). */
  datatype Module = Module(
    designation: string,
    enseignant: string,
    noteCC: Option<real>,
    noteTP: Option<real>,
    noteExam: Option<real>,
    noteRattrapage: Option<real>,
    hasRattrapage: bool,
    credits: int,
    moyenne: Option<real>,
    isGeneral: bool)

  // ---------------------------------------------------------------------------
  // Reading a score

  /** `parseGrade`: empty text is missing; otherwise the first comma becomes a
      point and the text is read as a number, missing when it is not one. */
  function ParseGrade(text: string): (r: Option<real>)
    ensures text == "" ==> r.None?
    ensures r.Some? ==> exists i | 0 <= i < |text| :: IsDigit(text[i])
  {
    if text == "" then None
    else
      ParseFloat(ReplaceFirst(text, ',', '.'))
  }

  /** The first comma of digits-comma-rest is the one replaced. */
  lemma ReplaceFirstComma(p: string, rest: string)
    requires ',' !in p
    ensures ReplaceFirst(p + "," + rest, ',', '.') == p + "." + rest
  {
    var s := p + "," + rest;
    assert s[|p|] == ',';
    var i := FirstIndex(s, ',');
    assert s[|p| := '.'] == p + "." + rest;
  }

  /** European decimal text reads as its value: "12,5" is 12.5, and a second
      comma ends the number, since only the first comma is replaced. */
  lemma ParseGradeComma(p: string, q: string, rest: string)
    requires p != [] && AllDigits(p) && AllDigits(q)
    requires rest == [] || !IsDigit(rest[0])
    ensures ParseGrade(p + "," + q + rest) == Some(DecimalValue(p, q))
  {
    assert ',' !in p by {
      assert forall i | 0 <= i < |p| :: IsDigit(p[i]);
    }
    assert p + "," + q + rest == p + "," + (q + rest);
    ReplaceFirstComma(p, q + rest);
    assert p + "." + (q + rest) == p + "." + q + rest;
    ParseFloatDecimal(p, q, rest);
  }

  lemma DigitsValueExamples()
    ensures DigitsValue("12") == 12 && DigitsValue("14") == 14 && DigitsValue("5") == 5
  {
    assert "12"[..1] == "1" && "14"[..1] == "1" && "1"[..0] == "" && "5"[..0] == "";
  }

  /** "12,5" reads as 12.5. */
  lemma ParseGradeCommaExample()
    ensures ParseGrade("12,5") == Some(12.5)
  {
    DigitsValueExamples();
    assert DecimalValue("12", "5") == 12.5;
    ParseGradeComma("12", "5", "");
    assert "12" + "," + "5" + "" == "12,5";
  }

  /** Only the first comma is replaced: "12,5,3" reads as 12.5. */
  lemma ParseGradeSecondCommaExample()
    ensures ParseGrade("12,5,3") == Some(12.5)
  {
    DigitsValueExamples();
    var p, q, rest := "12", "5", ",3";
    assert p + "," + q + rest == "12,5,3";
    assert DecimalValue(p, q) == 12.5;
    ParseGradeComma(p, q, rest);
  }

  /** "14" reads as 14. */
  lemma ParseGradeIntegerExample()
    ensures ParseGrade("14") == Some(14.0)
  {
    DigitsValueExamples();
    assert ReplaceFirst("14", ',', '.') == "14";
    ParseFloatInteger("14", "");
    assert "14" + "" == "14";
  }

  // ---------------------------------------------------------------------------
  // The module average

  /** A set of coefficients for the exam, cc and tp scores. */
  datatype Coefs = Coefs(exam: real, cc: real, tp: real)

  /** `defaultNoteCoefs` */
  const ExamOnly := Coefs(1.0, 0.0, 0.0)
  const ExamCC := Coefs(0.8, 0.2, 0.0)
  const ExamTP := Coefs(0.8, 0.0, 0.2)
  const ExamCCTP := Coefs(0.5, 0.2, 0.3)

  /** `calculateModuleAverage`: no exam score means no average; otherwise the
      coefficient set is picked by which of cc and tp are present. */
  function CalculateModuleAverage(m: Module): (r: Option<real>)
    ensures r.None? <==> m.noteExam.None?
  {
    if m.noteExam.None? then None
    else if m.noteCC.None? && m.noteTP.None? then m.noteExam
    else if m.noteCC.None? then
      Some(m.noteExam.value * ExamTP.exam + m.noteTP.value * ExamTP.tp)
    else if m.noteTP.None? then
      Some(m.noteExam.value * ExamCC.exam + m.noteCC.value * ExamCC.cc)
    else
      Some(m.noteExam.value * ExamCCTP.exam + m.noteCC.value * ExamCCTP.cc + m.noteTP.value * ExamCCTP.tp)
  }

  /** The coefficient table indexed by which of cc and tp are present. */
  function CoefsFor(hasCC: bool, hasTP: bool): Coefs
  {
    if hasCC && hasTP then ExamCCTP else if hasCC then ExamCC else if hasTP then ExamTP else ExamOnly
  }

  /** Every coefficient set sums to 1 and gives a missing score no weight. */
  lemma CoefsAreConvex(hasCC: bool, hasTP: bool)
    ensures var k := CoefsFor(hasCC, hasTP);
      && k.exam + k.cc + k.tp == 1.0
      && k.exam > 0.0 && k.cc >= 0.0 && k.tp >= 0.0
      && (!hasCC ==> k.cc == 0.0) && (!hasTP ==> k.tp == 0.0)
  {
  }

  /** The average is the table's weighted sum, a missing cc or tp counting 0. */
  lemma ModuleAverageIsWeightedSum(m: Module)
    requires m.noteExam.Some?
    ensures var k := CoefsFor(m.noteCC.Some?, m.noteTP.Some?);
      CalculateModuleAverage(m)
        == Some(k.exam * m.noteExam.value + k.cc * m.noteCC.GetOr(0.0) + k.tp * m.noteTP.GetOr(0.0))
  {
  }

  predicate ScoreInRange(x: Option<real>)
  {
    x.None? || 0.0 <= x.value <= 20.0
  }

  predicate ScoresInRange(m: Module)
  {
    ScoreInRange(m.noteCC) && ScoreInRange(m.noteTP) && ScoreInRange(m.noteExam)
  }

  /** Scores in [0, 20] give an average in [0, 20]. */
  lemma ModuleAverageInRange(m: Module)
    requires ScoresInRange(m)
    ensures ScoreInRange(CalculateModuleAverage(m))
  {
  }

  /** When every present score is x, the average is x. */
  lemma ModuleAverageOfEqualScores(m: Module, x: real)
    requires m.noteExam == Some(x)
    requires m.noteCC.Some? ==> m.noteCC.value == x
    requires m.noteTP.Some? ==> m.noteTP.value == x
    ensures CalculateModuleAverage(m) == Some(x)
  {
  }

  /** A higher exam score (a retake, say) never lowers the average. */
  lemma ModuleAverageMonotoneInExam(m: Module, e: real)
    requires m.noteExam.Some? && m.noteExam.value <= e
    ensures CalculateModuleAverage(m.(noteExam := Some(e))).value >= CalculateModuleAverage(m).value
  {
  }

  /** cc = 12, no tp, exam = 14: 14 * 0.8 + 12 * 0.2 = 13.6. */
  lemma ModuleAverageExample(m: Module)
    requires m.noteCC == Some(12.0) && m.noteTP.None? && m.noteExam == Some(14.0)
    ensures CalculateModuleAverage(m) == Some(13.6)
  {
  }

  // ---------------------------------------------------------------------------
  // Bounds on weighted sums, shared by the overall and the UE averages

  /** A score in [0, 20] times non-negative credits lies in [0, 20·credits]. */
  lemma ProductBounds(x: real, c: int)
    requires 0.0 <= x <= 20.0 && c >= 0
    ensures 0.0 <= x * c as real <= 20.0 * c as real
  {
  }

  /** Two weighted sums within their bounds add up within the bound of the
      summed credits. */
  lemma SumStep(a: real, ca: int, b: real, cb: int)
    requires 0 <= ca && 0.0 <= a <= 20.0 * ca as real
    requires 0 <= cb && 0.0 <= b <= 20.0 * cb as real
    ensures 0 <= ca + cb && 0.0 <= a + b <= 20.0 * (ca + cb) as real
  {
  }

  /** A weighted sum within its bound, divided by positive credits, lies in
      [0, 20]. */
  lemma QuotientBounds(ws: real, tc: real)
    requires tc > 0.0 && 0.0 <= ws <= 20.0 * tc
    ensures 0.0 <= ws / tc <= 20.0
  {
    assert ws / tc * tc == ws;
  }

  // ---------------------------------------------------------------------------
  // Edits at the table (`handleGradeInput`, `handleCreditsChange`)

  /** What a score typed into the table amounts to. */
  datatype GradeInput = Cleared | Score(value: real) | Invalid

  /** A typed score: empty or "-" clears the field; text that is not a number,
      or a number outside [0, 20], is refused. */
  function ParseGradeInput(raw: string): (r: GradeInput)
    ensures r.Score? ==> 0.0 <= r.value <= 20.0
  {
    var v := ReplaceFirst(raw, ',', '.');
    if v == "" || v == "-" then Cleared
    else
      match ParseFloat(v)
      case None => Invalid
      case Some(x) => if x < 0.0 || x > 20.0 then Invalid else Score(x)
  }

  /** Only "" and "-" clear a score. */
  lemma GradeInputCleared(raw: string)
    ensures ParseGradeInput(raw).Cleared? <==> (raw == "" || raw == "-")
  {
    var v := ReplaceFirst(raw, ',', '.');
    if v == "-" {
      assert |raw| == 1;
      assert raw == [raw[0]];
    }
    if raw == "-" {
      assert ',' !in raw;
    }
  }

  /** An accepted score is what `parseGrade` reads from the same text, and
      every text `parseGrade` reads as a value in [0, 20] is accepted. */
  lemma GradeInputAgreesWithParseGrade(raw: string, x: real)
    ensures ParseGradeInput(raw) == Score(x) <==> (ParseGrade(raw) == Some(x) && 0.0 <= x <= 20.0)
  {
    GradeInputCleared(raw);
    if ParseGrade(raw) == Some(x) {
      var i :| 0 <= i < |raw| && IsDigit(raw[i]);
      assert raw != "-";
    }
  }

  /** `Math.max(1, Math.min(20, parseInt(raw) || 1))`: the credit weight a
      typed value gives, NaN and 0 falling back to 1. */
  function CreditsFromInput(raw: string): (r: int)
    ensures 1 <= r <= 20
    ensures ParseInt(raw).Some? && 1 <= ParseInt(raw).value <= 20 ==> r == ParseInt(raw).value
    ensures (ParseInt(raw).None? || ParseInt(raw).value <= 1) ==> r == 1
    ensures ParseInt(raw).Some? && ParseInt(raw).value >= 20 ==> r == 20
  {
    var n := match ParseInt(raw) case Some(v) => if v != 0 then v else 1 case None => 1;
    if n > 20 then 20 else if n < 1 then 1 else n
  }

  /** A weight in [1, 20] written back to the input reads as itself. */
  lemma CreditsRoundTrip(n: int)
    requires 1 <= n <= 20
    ensures CreditsFromInput(NatText(n)) == n
  {
    ParseIntNatText(n);
  }

  /** Writing the clamped value back into the input and reading it again
      changes nothing. */
  lemma CreditsWriteBackStable(raw: string)
    ensures CreditsFromInput(NatText(CreditsFromInput(raw))) == CreditsFromInput(raw)
  {
    CreditsRoundTrip(CreditsFromInput(raw));
  }

  // ---------------------------------------------------------------------------
  // Pass mark

  /** `isProjetIntegrationModule`: the name, lower-cased, names the
      integration project (the source tests "projet d'intégration" twice). */
  function IsProjetIntegrationModule(name: string): bool
  {
    if name == "" then false
    else
      var l := Lower(name);
      || Contains(l, "projet d'intégration")
      || Contains(l, "projet integration")
      || Contains(l, "pi ")
      || Contains(l, " pi")
      || l == "pi"
      || Contains(l, "p.i")
      || (Contains(l, "projet") && Contains(l, "intégration"))
  }

  /** The mark a module average must reach to pass. */
  function PassingMark(name: string): (r: int)
    ensures r == 8 || r == 10
    ensures r == 10 <==> IsProjetIntegrationModule(name)
  {
    if IsProjetIntegrationModule(name) then 10 else 8
  }

  /** A module's pass/fail status; none without an average. */
  function ModulePasses(m: Module): (r: Option<bool>)
    ensures r.None? <==> m.moyenne.None?
    ensures r == Some(true) ==> m.moyenne.value >= 8.0
    ensures m.moyenne.Some? && m.moyenne.value >= 10.0 ==> r == Some(true)
    ensures r.Some? ==>
      (r.value <==> m.moyenne.value >= (if IsProjetIntegrationModule(m.designation) then 10.0 else 8.0))
  {
    if m.moyenne.None? then None
    else Some(m.moyenne.value >= PassingMark(m.designation) as real)
  }

  /** "Projet d'Intégration" and "PI" need 10; "Algèbre" needs 8. */
  lemma PassingMarkExamples()
    ensures PassingMark("Projet d'Intégration") == 10
    ensures PassingMark("PI") == 10
    ensures PassingMark("Algèbre") == 8
  {
    ProjectNameIsProject();
    assert Lower("PI") == "pi";
    AlgebraIsNotProject();
  }

  lemma ProjectNameIsProject()
    ensures IsProjetIntegrationModule("Projet d'Intégration")
  {
    var l := Lower("Projet d'Intégration");
    assert l == "projet d'intégration";
    ContainsSelf(l);
  }

  lemma AlgebraIsNotProject()
    ensures !IsProjetIntegrationModule("Algèbre")
  {
    var a := Lower("Algèbre");
    assert a == "algèbre";
    assert 'p' !in a;
    NotContainsChar(a, "projet d'intégration", 0);
    NotContainsChar(a, "projet integration", 0);
    NotContainsChar(a, "pi ", 0);
    NotContainsChar(a, " pi", 1);
    NotContainsChar(a, "p.i", 0);
    NotContainsChar(a, "projet", 0);
  }

  /** The name is lower-cased before it is tested, so its case never matters. */
  lemma ProjectTestIgnoresCase(name: string)
    ensures IsProjetIntegrationModule(Lower(name)) == IsProjetIntegrationModule(name)
  {
    LowerIdempotent(name);
  }

  /** The test "pi " also fires inside words: "API REST" gets the project's
      pass mark of 10. */
  lemma PassingMarkApiQuirk()
    ensures PassingMark("API REST") == 10
  {
    var l := Lower("API REST");
    assert l == "api rest";
    assert OccursAt(l, "pi ", 1);
    ContainsAt(l, "pi ", 1);
  }
}
