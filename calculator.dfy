/** The calculator object: its three pieces of state and the operations that
    update them in place, each proved to leave the state the corresponding
    specification function describes. */
module Calculator {
  import opened Wrappers
  import opened Text
  import opened Grades
  import opened Assoc
  import opened Averages
  import opened Retake
  import opened Groups
  import Table

  /** Which score a grade input edits (`data-type`); any other type edits
      nothing but still triggers the recalculation. */
  datatype ScoreField = CC | TP | Exam | OtherField

  /** How `calculateGrades` ended. */
  datatype Outcome = TableMissing | NoData | Calculated

  /** The records `calculateGrades` reads: the grades table parsed under the
      configuration, with the retake table overlaid. */
  function ReadRecords(table: seq<seq<string>>, retakeTable: Option<seq<seq<string>>>, config: Config): seq<Module>
  {
    ApplyRetakes(Table.ParseTable(table, config), retakeTable)
  }

  /** The record after a score edit. */
  function WithScore(m: Module, field: ScoreField, v: Option<real>): (r: Module)
    ensures r.designation == m.designation && r.credits == m.credits && r.isGeneral == m.isGeneral
    ensures r.noteCC == (if field == CC then v else m.noteCC)
    ensures r.noteTP == (if field == TP then v else m.noteTP)
    ensures r.noteExam == (if field == Exam then v else m.noteExam)
  {
    match field
    case CC => m.(noteCC := v)
    case TP => m.(noteTP := v)
    case Exam => m.(noteExam := v)
    case OtherField => m
  }

  /** The value an accepted score input stores. */
  function StoredScore(input: GradeInput): Option<real>
    requires input != Invalid
  {
    if input.Cleared? then None else Some(input.value)
  }

  /** Replacing element `i` of the unprocessed part by its processed value
      extends the processed prefix by one. */
  lemma PrefixStep<T>(done: seq<T>, orig: seq<T>, i: nat)
    requires i < |done| == |orig|
    ensures (done[..i] + orig[i..])[i := done[i]] == done[..i + 1] + orig[i + 1..]
    ensures done[..i + 1] == done[..i] + [done[i]]
  {
  }

  /** The `forEach` of `calculateIndividualAverages`: each real record gets
      its module average, and those with one are summed as they go. */
  method AverageRecords(records: seq<Module>) returns (data: seq<Module>, totalWeightedScore: real, totalCredits: int)
    ensures data == WithAverages(records)
    ensures totalWeightedScore == WeightedSum(data) && totalCredits == CreditSum(data)
  {
    data := records;
    ghost var done := WithAverages(records);
    totalWeightedScore, totalCredits := 0.0, 0;
    var i := 0;
    while i < |data|
      invariant 0 <= i <= |data| == |done| == |records|
      invariant data == done[..i] + records[i..]
      invariant totalWeightedScore == WeightedSum(done[..i])
      invariant totalCredits == CreditSum(done[..i])
    {
      assert data[i] == records[i];
      var m, weightedScore, credits := AverageRecord(data[i]);
      data := data[i := m];
      totalWeightedScore := totalWeightedScore + weightedScore;
      totalCredits := totalCredits + credits;
      PrefixStep(done, records, i);
      SumsSnoc(done[..i], m);
      i := i + 1;
    }
    assert done[..i] == done;
  }

  /** The `forEach` of `recalculateGeneralAverage`: the real records that
      have an average are summed, weighted by their credits. */
  method SumRecords(data: seq<Module>) returns (totalWeightedScore: real, totalCredits: int)
    ensures totalWeightedScore == WeightedSum(data) && totalCredits == CreditSum(data)
  {
    totalWeightedScore, totalCredits := 0.0, 0;
    var i := 0;
    while i < |data|
      invariant 0 <= i <= |data|
      invariant totalWeightedScore == WeightedSum(data[..i])
      invariant totalCredits == CreditSum(data[..i])
    {
      var m := data[i];
      if !m.isGeneral && m.moyenne.Some? {
        totalWeightedScore := totalWeightedScore + m.moyenne.value * m.credits as real;
        totalCredits := totalCredits + m.credits;
      }
      assert data[..i + 1] == data[..i] + [m];
      SumsSnoc(data[..i], m);
      i := i + 1;
    }
    assert data[..i] == data;
  }

  /** One step of that `forEach`: the record with its average, and what it
      adds to the two running totals. */
  method AverageRecord(record: Module) returns (m: Module, weightedScore: real, credits: int)
    ensures m == WithAverage(record)
    ensures weightedScore == Contribution(m) && credits == CreditOf(m)
  {
    m, weightedScore, credits := record, 0.0, 0;
    if !m.isGeneral {
      m := m.(moyenne := CalculateModuleAverage(m));
      if m.moyenne.Some? {
        weightedScore := m.moyenne.value * m.credits as real;
        credits := m.credits;
      }
    }
  }

  /** The column scan of `handleRattrapageGrades`: from the second cell on,
      the first whose trimmed text reads as a grade in [0, 20]. */
  method ScanRetakeGrade(cells: seq<string>) returns (rattrapageGrade: Option<real>)
    ensures rattrapageGrade == RowGrade(cells)
  {
    rattrapageGrade := None;
    var col := 1;
    while col < |cells| && rattrapageGrade.None?
      invariant 1 <= col && (|cells| >= 1 ==> col <= |cells|)
      invariant rattrapageGrade.None? ==> |cells| < 2 || FirstRetakeGrade(CellGrades(cells), col) == RowGrade(cells)
      invariant rattrapageGrade.Some? ==> rattrapageGrade == RowGrade(cells)
    {
      var grade := ParseGrade(Trim(cells[col]));
      CellGradesAt(cells, col);
      if IsRetakeGrade(grade) {
        rattrapageGrade := grade;
      }
      col := col + 1;
    }
  }

  /** One row of `handleRattrapageGrades`: a row of two cells or more whose
      scan finds a grade and whose non-empty name finds a record overwrites
      that record's exam score, retake score and flag. */
  method ApplyRetakeRowTo(records: seq<Module>, cells: seq<string>) returns (data: seq<Module>)
    ensures data == ApplyRetakeRow(records, cells)
  {
    data := records;
    if |cells| >= 2 {
      var designation := Trim(cells[0]);
      var rattrapageGrade := ScanRetakeGrade(cells);
      if rattrapageGrade.Some? && designation != "" {
        var moduleIndex := FindRetakeTarget(data, designation);
        if moduleIndex.Some? {
          data := data[moduleIndex.value := WithRetake(data[moduleIndex.value], rattrapageGrade.value)];
        }
      }
    }
  }

  /** The first loop of the configured branch of `groupModulesByUE`: an
      empty group per configured UE, in key order. */
  method InitialUEGroups(config: Config) returns (groups: Grouped)
    ensures groups == InitialGroups(config)
  {
    groups := [];
    var e := 0;
    while e < |config|
      invariant 0 <= e <= |config|
      invariant groups == InitialGroups(config[..e])
    {
      var (ueName, ueInfo) := config[e];
      groups := Set(groups, ueName, EmptyGroup(ueName, ueInfo));
      InitialGroupsStep(config, e);
      e := e + 1;
    }
    assert config[..e] == config;
  }

  lemma InitialGroupsStep(config: Config, e: nat)
    requires e < |config|
    ensures InitialGroups(config[..e + 1]) == Set(InitialGroups(config[..e]), config[e].0, EmptyGroup(config[e].0, config[e].1))
  {
    var prefix := config[..e + 1];
    assert prefix[..|prefix| - 1] == config[..e];
    assert prefix[|prefix| - 1] == config[e];
  }

  /** The search of the assignment loop: the first UE, in key order, with a
      configured module the record matches. */
  method FindUE(config: Config, m: Module) returns (found: Option<nat>)
    ensures found == FirstMatchingUE(config, m)
  {
    var e := 0;
    while e < |config|
      invariant 0 <= e <= |config|
      invariant forall f | 0 <= f < e :: !UEMatches(config[f].1, m)
    {
      if UEMatches(config[e].1, m) {
        FirstMatchingUEAt(config, m, e);
        return Some(e);
      }
      e := e + 1;
    }
    return None;
  }

  /** The assignment loop of the configured branch: each real record joins
      the first UE it matches, or gets a group of its own. */
  method AssignModules(initial: Grouped, config: Config, data: seq<Module>) returns (groups: Grouped)
    requires ConfigKeysIn(config, initial)
    ensures groups == AssignAll(initial, config, data)
  {
    groups := initial;
    var i := 0;
    while i < |data|
      invariant 0 <= i <= |data|
      invariant groups == AssignAll(initial, config, data[..i])
    {
      var m := data[i];
      assert data[..i + 1][..i] == data[..i];
      if !m.isGeneral {
        var found := FindUE(config, m);
        if found.Some? {
          var ueName := config[found.value].0;
          groups := Set(groups, ueName, AppendMember(Lookup(groups, ueName).value, m));
        } else {
          groups := Set(groups, m.designation, Singleton(m));
        }
      }
      i := i + 1;
    }
    assert data[..i] == data;
  }

  /** The unconfigured branch: each real record gets a group of its own. */
  method SingletonGroups(data: seq<Module>) returns (groups: Grouped)
    ensures groups == AssignAll([], [], data)
  {
    groups := [];
    var i := 0;
    while i < |data|
      invariant 0 <= i <= |data|
      invariant groups == AssignAll([], [], data[..i])
    {
      var m := data[i];
      assert data[..i + 1][..i] == data[..i];
      if !m.isGeneral {
        groups := Set(groups, m.designation, Singleton(m));
      }
      i := i + 1;
    }
    assert data[..i] == data;
  }

  /** The inner loop of the final pass: the members' weighted score and
      credits. */
  method SumMembers(mods: seq<Module>) returns (weightedScore: real, totalCredits: int)
    ensures weightedScore == ScoreSum(mods) && totalCredits == CreditTotal(mods)
  {
    weightedScore, totalCredits := 0.0, 0;
    var j := 0;
    while j < |mods|
      invariant 0 <= j <= |mods|
      invariant weightedScore == ScoreSum(mods[..j]) && totalCredits == CreditTotal(mods[..j])
    {
      var m := mods[j];
      if m.moyenne.Some? {
        weightedScore := weightedScore + m.moyenne.value * m.credits as real;
      }
      totalCredits := totalCredits + m.credits;
      assert mods[..j + 1] == mods[..j] + [m];
      SumsAppend(mods[..j], m);
      j := j + 1;
    }
    assert mods[..j] == mods;
  }

  /** One group of the final pass: a group with members gets its weighted
      score and credits from them, and its mean when those credits are
      positive. */
  method RecomputeUE(ue: UEGroup) returns (r: UEGroup)
    ensures r == RecomputeGroup(ue)
  {
    r := ue;
    if |r.modules| > 0 {
      var weightedScore, totalCredits := SumMembers(r.modules);
      r := r.(weightedScore := weightedScore, totalCredits := totalCredits);
      if totalCredits > 0 {
        r := r.(moyenne := weightedScore / totalCredits as real);
      }
    }
  }

  /** A recomputed entry extends the recomputed prefix and the UE totals. */
  lemma RecomputeStep(placed: Grouped, k: nat, entry: (string, UEGroup))
    requires k < |placed| && entry == (placed[k].0, RecomputeGroup(placed[k].1))
    ensures var done := RecomputeAll(placed);
      && (done[..k] + placed[k..])[k := entry] == done[..k + 1] + placed[k + 1..]
      && UEScore(done[..k + 1]) == UEScore(done[..k]) + (if CountedGroup(entry.1) then entry.1.moyenne * entry.1.totalCredits as real else 0.0)
      && UECredits(done[..k + 1]) == UECredits(done[..k]) + (if CountedGroup(entry.1) then entry.1.totalCredits else 0)
  {
    var done := RecomputeAll(placed);
    assert entry == done[k];
    PrefixStep(done, placed, k);
    UESumsSnoc(done[..k], done[k]);
  }

  /** One step of that pass: the group recomputed, and what it adds to the
      UE totals when it has members and credits. */
  method RecomputeEntry(entry: (string, UEGroup)) returns (r: (string, UEGroup), score: real, credits: int)
    ensures r == (entry.0, RecomputeGroup(entry.1))
    ensures score == (if CountedGroup(r.1) then r.1.moyenne * r.1.totalCredits as real else 0.0)
    ensures credits == (if CountedGroup(r.1) then r.1.totalCredits else 0)
  {
    var (name, ue) := entry;
    ue := RecomputeUE(ue);
    score, credits := 0.0, 0;
    if |ue.modules| > 0 && ue.totalCredits > 0 {
      score := ue.moyenne * ue.totalCredits as real;
      credits := ue.totalCredits;
    }
    r := (name, ue);
  }

  /** The final pass of `groupModulesByUE`: every group is recomputed, and
      the counted groups are totalled. */
  method RecomputeUEs(placed: Grouped) returns (groups: Grouped, totalUEScore: real, totalUECredits: int)
    ensures groups == RecomputeAll(placed)
    ensures totalUEScore == UEScore(groups) && totalUECredits == UECredits(groups)
  {
    groups := placed;
    ghost var done := RecomputeAll(placed);
    totalUEScore, totalUECredits := 0.0, 0;
    var k := 0;
    while k < |groups|
      invariant 0 <= k <= |groups| == |done| == |placed|
      invariant groups == done[..k] + placed[k..]
      invariant totalUEScore == UEScore(done[..k]) && totalUECredits == UECredits(done[..k])
    {
      assert groups[k] == placed[k];
      var entry, score, credits := RecomputeEntry(groups[k]);
      RecomputeStep(placed, k, entry);
      groups := groups[k := entry];
      totalUEScore, totalUECredits := totalUEScore + score, totalUECredits + credits;
      k := k + 1;
    }
    assert done[..k] == done;
  }

  /** The merged group of `mergeUEs`: the target's members then the
      source's, credits and weighted scores added, and the mean over the
      credits of the members that have an average. */
  method MergeGroups(source: UEGroup, target: UEGroup, mergedName: string) returns (merged: UEGroup)
    ensures merged == MergedGroup(source, target, mergedName)
  {
    var mergedModules := target.modules + source.modules;
    var mergedCredits := target.totalCredits + source.totalCredits;
    var mergedWeightedScore := target.weightedScore + source.weightedScore;
    var validCredits := ValidCredits(mergedModules);
    var newAverage := if validCredits > 0 then mergedWeightedScore / validCredits as real else 0.0;
    merged := UEGroup(mergedName, mergedModules, mergedCredits, mergedWeightedScore, newAverage, false);
  }

  /** The body of `mergeUEs` on the two dictionaries: nothing changes unless
      both names are real groups; then the merged group and its
      configuration are added and both operands deleted. */
  method MergeLayout(groups: Grouped, config: Config, sourceUEName: string, targetUEName: string)
    returns (merged: bool, newGroups: Grouped, newConfig: Config)
    requires DistinctKeys(groups) && DistinctKeys(config)
    ensures merged == CanMerge(groups, sourceUEName, targetUEName)
    ensures Layout(newGroups, newConfig) == Groups.MergeUEs(Layout(groups, config), sourceUEName, targetUEName)
    ensures DistinctKeys(newGroups) && DistinctKeys(newConfig)
  {
    MergeKeepsDistinct(Layout(groups, config), sourceUEName, targetUEName);
    var sourceUE, targetUE := Lookup(groups, sourceUEName), Lookup(groups, targetUEName);
    if sourceUE.None? || targetUE.None? || sourceUE.value.isGeneral || targetUE.value.isGeneral {
      return false, groups, config;
    }
    var mergedName := MergedName(sourceUEName, targetUEName);
    var mergedUE := MergeGroups(sourceUE.value, targetUE.value, mergedName);
    newGroups := Set(groups, mergedName, mergedUE);
    newGroups := Delete(newGroups, sourceUEName);
    newGroups := Delete(newGroups, targetUEName);
    newConfig := Set(config, mergedName, UEConfig(CatalogOf(mergedUE.modules), mergedUE.totalCredits));
    newConfig := Delete(newConfig, sourceUEName);
    newConfig := Delete(newConfig, targetUEName);
    merged := true;
  }

  /** The `forEach` of `splitUE`: each member, in order, gets a group of its
      own under its designation. */
  method SplitMembers(groups: Grouped, modules: seq<Module>) returns (newGroups: Grouped)
    ensures newGroups == SplitInto(groups, modules)
  {
    newGroups := groups;
    var i := 0;
    while i < |modules|
      invariant 0 <= i <= |modules|
      invariant newGroups == SplitInto(groups, modules[..i])
    {
      var m := modules[i];
      assert modules[..i + 1][..i] == modules[..i];
      newGroups := Set(newGroups, m.designation, Singleton(m));
      i := i + 1;
    }
    assert modules[..i] == modules;
  }

  /** The body of `splitUE` on the two dictionaries: nothing changes unless
      the name is a real group; then each member, in order, gets a group of
      its own, and the name leaves both dictionaries. */
  method SplitLayout(groups: Grouped, config: Config, ueName: string)
    returns (split: bool, newGroups: Grouped, newConfig: Config)
    requires DistinctKeys(groups) && DistinctKeys(config)
    ensures split <==> Lookup(groups, ueName).Some? && !Lookup(groups, ueName).value.isGeneral
    ensures Layout(newGroups, newConfig) == Groups.SplitUE(Layout(groups, config), ueName)
    ensures DistinctKeys(newGroups) && DistinctKeys(newConfig)
  {
    SplitKeepsDistinct(Layout(groups, config), ueName);
    var ue := Lookup(groups, ueName);
    if ue.None? || ue.value.isGeneral {
      return false, groups, config;
    }
    newGroups := SplitMembers(groups, ue.value.modules);
    newGroups := Delete(newGroups, ueName);
    newConfig := Delete(config, ueName);
    split := true;
  }

  /** A freshly read table holds no overall record. */
  lemma ParsedOneGeneral(rows: seq<seq<string>>, config: Config)
    ensures AtMostOneGeneral(Table.ParseTable(rows, config))
  {
    Table.ParsedRecordsFresh(rows, config, |rows|);
  }

  /** Retakes never add, drop or reclassify a record, so at most one overall
      row stays at most one. */
  lemma RetakesKeepOneGeneral(data: seq<Module>, table: Option<seq<seq<string>>>)
    requires AtMostOneGeneral(data)
    ensures AtMostOneGeneral(ApplyRetakes(data, table))
  {
    RetakesKeep(data, table);
    var r := ApplyRetakes(data, table);
    forall i, j | 0 <= i < j < |r| ensures !(r[i].isGeneral && r[j].isGeneral) {
      assert SameModule(data[i], r[i]) && SameModule(data[j], r[j]);
    }
  }

  class GradeCalculator {
    /** The records, in table order, with at most one overall row. */
    var currentData: seq<Module>
    /** The UE groups shown in the grouped table, by name. */
    var groupedData: Grouped
    /** The user's UE configuration, by name. */
    var ueGroups: Config
    var isCalculated: bool

    /** Both dictionaries hold each key once, as JavaScript objects do, and
        the records hold at most one overall row. */
    ghost predicate Valid()
      reads this
    {
      DistinctKeys(groupedData) && DistinctKeys(ueGroups) && AtMostOneGeneral(currentData)
    }

    constructor()
      ensures currentData == [] && groupedData == [] && ueGroups == [] && !isCalculated
      ensures Valid()
    {
      currentData := [];
      groupedData := [];
      ueGroups := [];
      isCalculated := false;
    }

    /** `parseTable`: one record per row after the header with at least five
        cells, credits looked up in the current configuration. */
    method ParseTable(rows: seq<seq<string>>) returns (data: seq<Module>)
      ensures data == Table.ParseTable(rows, ueGroups)
    {
      data := [];
      var i := 1;
      while i < |rows|
        invariant 1 <= i && (|rows| >= 1 ==> i <= |rows|)
        invariant data == Table.ParseRows(rows, ueGroups, if |rows| == 0 then 0 else i)
      {
        var cells := rows[i];
        if |cells| >= 5 {
          data := data + [Table.ParseRow(cells, ueGroups)];
        }
        i := i + 1;
      }
    }

    /** `updateGeneralAverage`: the overall row is replaced where it is, or
        appended when there is none. */
    method UpdateGeneralAverage(totalWeightedScore: real, totalCredits: int)
      requires Valid()
      modifies this
      ensures currentData == Averages.UpdateGeneralAverage(old(currentData), totalWeightedScore, totalCredits)
      ensures groupedData == old(groupedData) && ueGroups == old(ueGroups) && isCalculated == old(isCalculated)
      ensures exists g | 0 <= g < |currentData| :: OnlyGeneralAt(currentData, g)
      ensures Valid()
    {
      UpdateKeepsOneGeneral(currentData, totalWeightedScore, totalCredits);
      var generalModule := GeneralRecord(totalWeightedScore, totalCredits);
      var existing := FindGeneral(currentData);
      if existing.Some? {
        currentData := currentData[existing.value := generalModule];
      } else {
        currentData := currentData + [generalModule];
      }
    }

    /** `calculateIndividualAverages`: every real record gets its module
        average, the counted ones are summed, and the overall row is updated. */
    method CalculateIndividualAverages()
      requires Valid()
      modifies this
      ensures currentData == IndividualAverages(old(currentData))
      ensures groupedData == old(groupedData) && ueGroups == old(ueGroups) && isCalculated == old(isCalculated)
      ensures exists g | 0 <= g < |currentData| :: OnlyGeneralAt(currentData, g)
      ensures Valid()
    {
      var data, totalWeightedScore, totalCredits := AverageRecords(currentData);
      WithAveragesKeepOneGeneral(currentData);
      currentData := data;
      UpdateGeneralAverage(totalWeightedScore, totalCredits);
    }

    /** `recalculateGeneralAverage`: the overall row from the averages as
        they stand. */
    method RecalculateGeneralAverage()
      requires Valid()
      modifies this
      ensures currentData == Averages.RecalculateGeneralAverage(old(currentData))
      ensures groupedData == old(groupedData) && ueGroups == old(ueGroups) && isCalculated == old(isCalculated)
      ensures Valid()
    {
      var totalWeightedScore, totalCredits := SumRecords(currentData);
      UpdateGeneralAverage(totalWeightedScore, totalCredits);
    }

    /** `handleRattrapageGrades` on the retake table, if the page has one. */
    method HandleRattrapageGrades(table: Option<seq<seq<string>>>)
      requires Valid()
      modifies this
      ensures currentData == ApplyRetakes(old(currentData), table)
      ensures groupedData == old(groupedData) && ueGroups == old(ueGroups) && isCalculated == old(isCalculated)
      ensures Valid()
    {
      RetakesKeepOneGeneral(currentData, table);
      if table.None? {
        return;
      }
      var rows := table.value;
      var data := currentData;
      var i := 1;
      while i < |rows|
        invariant unchanged(this)
        invariant 1 <= i
        invariant ApplyRetakesFrom(data, rows, i) == ApplyRetakes(currentData, table)
      {
        data := ApplyRetakeRowTo(data, rows[i]);
        i := i + 1;
      }
      currentData := data;
    }

    /** `groupModulesByUE`: `groupedData` rebuilt from the records and the
        configuration. */
    method GroupModulesByUE()
      requires Valid()
      modifies this
      ensures groupedData == Groups.GroupModulesByUE(currentData, ueGroups)
      ensures currentData == old(currentData) && ueGroups == old(ueGroups) && isCalculated == old(isCalculated)
      ensures Valid()
    {
      var placed: Grouped;
      if |ueGroups| > 0 {
        var initial := InitialUEGroups(ueGroups);
        InitialGroupsCover(ueGroups);
        placed := AssignModules(initial, ueGroups, currentData);
      } else {
        placed := SingletonGroups(currentData);
      }
      var groups, totalUEScore, totalUECredits := RecomputeUEs(placed);
      if |ueGroups| > 0 && totalUECredits > 0 {
        groups := Set(groups, GeneralUEName, GeneralUE(totalUEScore, totalUECredits));
      }
      groupedData := groups;
      GroupModulesDistinct(currentData, ueGroups);
    }

    /** `recalculateAll`: the overall row is dropped, the averages and the
        overall row recomputed, and the groups rebuilt. */
    method RecalculateAll()
      requires Valid()
      modifies this
      ensures currentData == RecalculateRecords(old(currentData))
      ensures groupedData == Groups.GroupModulesByUE(currentData, ueGroups)
      ensures ueGroups == old(ueGroups) && isCalculated == old(isCalculated)
      ensures exists g | 0 <= g < |currentData| :: OnlyGeneralAt(currentData, g)
      ensures Valid()
    {
      currentData := StripGeneral(currentData);
      CalculateIndividualAverages();
      GroupModulesByUE();
    }

    /** `recalculateModule(index)`: for an existing real record, its average
        is refreshed and then everything is recalculated; otherwise nothing
        happens. */
    method RecalculateModule(index: int)
      requires Valid()
      modifies this
      ensures if 0 <= index < |old(currentData)| && !old(currentData)[index].isGeneral then
          && currentData == RecalculateRecords(old(currentData)[index := WithAverage(old(currentData)[index])])
          && currentData == RecalculateRecords(old(currentData))
          && groupedData == Groups.GroupModulesByUE(currentData, ueGroups)
          && ueGroups == old(ueGroups) && isCalculated == old(isCalculated)
        else
          unchanged(this)
      ensures Valid()
    {
      if 0 <= index < |currentData| && !currentData[index].isGeneral {
        var m := currentData[index];
        RecalculateModuleSubsumed(currentData, index);
        ReplaceKeepsOneGeneral(currentData, index, m.(moyenne := CalculateModuleAverage(m)));
        currentData := currentData[index := m.(moyenne := CalculateModuleAverage(m))];
        RecalculateAll();
      }
    }

    /** `handleGradeInput`: a refused value changes nothing; an accepted one
        is stored in the chosen score of an existing record, after which
        everything is recalculated (the debounce is not modelled). */
    method HandleGradeInput(index: int, field: ScoreField, raw: string) returns (accepted: bool)
      requires Valid()
      modifies this
      ensures accepted <==> ParseGradeInput(raw) != Invalid
      ensures !accepted || !(0 <= index < |old(currentData)|) ==> unchanged(this)
      ensures accepted && 0 <= index < |old(currentData)| ==>
        && currentData == RecalculateRecords(old(currentData)[index := WithScore(old(currentData)[index], field, StoredScore(ParseGradeInput(raw)))])
        && groupedData == Groups.GroupModulesByUE(currentData, ueGroups)
        && ueGroups == old(ueGroups) && isCalculated == old(isCalculated)
      ensures Valid()
    {
      var input := ParseGradeInput(raw);
      if input.Invalid? {
        return false;
      }
      if 0 <= index < |currentData| {
        var value := StoredScore(input);
        var m := currentData[index];
        match field {
          case CC => m := m.(noteCC := value);
          case TP => m := m.(noteTP := value);
          case Exam => m := m.(noteExam := value);
          case OtherField =>
        }
        ReplaceKeepsOneGeneral(currentData, index, m);
        currentData := currentData[index := m];
        RecalculateAll();
      }
      return true;
    }

    /** `handleCreditsChange`: the typed weight is clamped to [1, 20]; an
        existing real record takes it, the overall row is recomputed from the
        averages as they stand and the groups are rebuilt. */
    method HandleCreditsChange(index: int, raw: string) returns (clampedCredits: int)
      requires Valid()
      modifies this
      ensures clampedCredits == CreditsFromInput(raw)
      ensures if 0 <= index < |old(currentData)| && !old(currentData)[index].isGeneral then
          && currentData == Averages.RecalculateGeneralAverage(old(currentData)[index := old(currentData)[index].(credits := clampedCredits)])
          && groupedData == Groups.GroupModulesByUE(currentData, ueGroups)
          && ueGroups == old(ueGroups) && isCalculated == old(isCalculated)
        else
          unchanged(this)
      ensures Valid()
    {
      clampedCredits := CreditsFromInput(raw);
      if 0 <= index < |currentData| && !currentData[index].isGeneral {
        ReplaceKeepsOneGeneral(currentData, index, currentData[index].(credits := clampedCredits));
        currentData := currentData[index := currentData[index].(credits := clampedCredits)];
        RecalculateGeneralAverage();
        GroupModulesByUE();
      }
    }

    /** `mergeUEs(source, target)`: two real groups become one, in
        `groupedData` and in `ueGroups`. */
    method MergeUEs(sourceUEName: string, targetUEName: string) returns (merged: bool)
      requires Valid()
      modifies this
      ensures merged == CanMerge(old(groupedData), sourceUEName, targetUEName)
      ensures Layout(groupedData, ueGroups) == Groups.MergeUEs(Layout(old(groupedData), old(ueGroups)), sourceUEName, targetUEName)
      ensures currentData == old(currentData) && isCalculated == old(isCalculated)
      ensures Valid()
    {
      merged, groupedData, ueGroups := MergeLayout(groupedData, ueGroups, sourceUEName, targetUEName);
    }

    /** `splitUE(name)`: every member of a real group gets a group of its
        own, then the name leaves both dictionaries. */
    method SplitUE(ueName: string) returns (split: bool)
      requires Valid()
      modifies this
      ensures split <==> Lookup(old(groupedData), ueName).Some? && !Lookup(old(groupedData), ueName).value.isGeneral
      ensures Layout(groupedData, ueGroups) == Groups.SplitUE(Layout(old(groupedData), old(ueGroups)), ueName)
      ensures currentData == old(currentData) && isCalculated == old(isCalculated)
      ensures Valid()
    {
      split, groupedData, ueGroups := SplitLayout(groupedData, ueGroups, ueName);
    }

    /** `calculateGrades`: without a grades table nothing happens; otherwise
        the table is read and the retake table overlaid; an empty result
        stops there, and otherwise the averages and groups are computed and
        the calculator is marked as done. */
    method CalculateGrades(table: Option<seq<seq<string>>>, retakeTable: Option<seq<seq<string>>>)
      returns (outcome: Outcome)
      requires Valid()
      modifies this
      ensures table.None? ==> outcome == TableMissing && unchanged(this)
      ensures table.Some? ==> ueGroups == old(ueGroups)
      ensures table.Some? && ReadRecords(table.value, retakeTable, old(ueGroups)) == [] ==>
        outcome == NoData && currentData == [] && groupedData == old(groupedData) && isCalculated == old(isCalculated)
      ensures table.Some? && ReadRecords(table.value, retakeTable, old(ueGroups)) != [] ==>
        && outcome == Calculated && isCalculated
        && currentData == IndividualAverages(ReadRecords(table.value, retakeTable, old(ueGroups)))
        && groupedData == Groups.GroupModulesByUE(currentData, ueGroups)
      ensures Valid()
    {
      if table.None? {
        return TableMissing;
      }
      currentData := ParseTable(table.value);
      ParsedOneGeneral(table.value, ueGroups);
      HandleRattrapageGrades(retakeTable);
      if |currentData| == 0 {
        return NoData;
      }
      CalculateIndividualAverages();
      GroupModulesByUE();
      isCalculated := true;
      return Calculated;
    }
  }
}
